/**
 * ParseControl: the depth-first decomposition of a screen's control tree into a
 * directory per control, holding a code file of its rules and a data file of what
 * is left of the control once its scripts and children have been taken out.
 */
module ControlWalk {
  import opened Wrappers
  import opened Text
  import opened Paths
  import opened FileSystem
  import opened AutoValues

  const CodeFileExt: string := ".js"
  const DataFileExt: string := ".json"
  const EndOfRuleCode: string := "} // End of "

  /** A rule as read from the screen file: its property and its InvariantScript. */
  datatype RuleText = RuleText(property: string, script: string)

  /** A control as read from the screen file, before the walk. */
  datatype ControlTree = ControlTree(name: string, rules: seq<RuleText>, children: seq<ControlTree>, hasComponentChildren: bool)

  /** The record that keeps the order of a control's children in its data file. */
  datatype ChildOrder = ChildOrder(name: string, childrenOrder: ChildrenOrder)

  /** A ChildrenOrder field: null, or the list of records. */
  datatype ChildrenOrder = Null | OrderList(records: seq<ChildOrder>)

  datatype RuleData = RuleData(property: string, script: Option<string>)

  /**
   * The part of a control that the walk changes, as its data file sees it: name,
   * rules and ChildrenOrder (Children is always null by then). The control's other
   * fields are left to the serialize functions.
   */
  datatype ControlData = ControlData(name: string, rules: seq<RuleData>, childrenOrder: ChildrenOrder)

  /** The script as written into the code file: every NewLine followed by a tab. */
  function Indent(script: string): string {
    Replace(script, NewLine, NewLine + "\t")
  }

  /** The inverse of Indent: a NewLine and the tab after it become a NewLine. */
  function Unindent(text: string): string {
    Replace(text, NewLine + "\t", NewLine)
  }

  function RuleHeader(property: string): string {
    property + "(){" + NewLine + "\t"
  }

  function RuleFooter(property: string): string {
    NewLine + EndOfRuleCode + property + NewLine + NewLine
  }

  /** The three AppendLine calls for one rule. */
  function RuleBlock(rule: RuleText): string {
    RuleHeader(rule.property) + Indent(rule.script) + RuleFooter(rule.property)
  }

  /** The code file of a control: its rule blocks in rule order. */
  function RenderRules(rules: seq<RuleText>): string {
    if rules == [] then "" else RenderRules(rules[..|rules| - 1]) + RuleBlock(rules[|rules| - 1])
  }

  /** Reads the script back out of a rule block of the given property. */
  function ScriptOf(property: string, block: string): Option<string> {
    var h := RuleHeader(property);
    var f := RuleFooter(property);
    if |h| + |f| <= |block| && StartsWith(block, h) && EndsWith(block, f)
    then Some(Unindent(block[|h|..|block| - |f|]))
    else None
  }

  /** The first character of Indent(s) is a '\r' exactly when s starts with one. */
  lemma IndentHead(s: string)
    ensures Indent(s) == [] <==> s == []
    ensures s != [] ==> Indent(s)[0] == s[0]
  {
  }

  /** Unindent undoes Indent. */
  lemma {:induction false} UnindentIndent(s: string)
    ensures Unindent(Indent(s)) == s
    decreases |s|
  {
    var nt := NewLine + "\t";
    if StartsWith(s, NewLine) {
      var rest := s[|NewLine|..];
      UnindentIndent(rest);
      assert Indent(s) == nt + Indent(rest);
      assert StartsWith(nt + Indent(rest), nt);
      assert (nt + Indent(rest))[|nt|..] == Indent(rest);
      assert s == NewLine + rest;
    } else if s != [] {
      var rest := s[1..];
      UnindentIndent(rest);
      var y := Indent(rest);
      assert Indent(s) == [s[0]] + y;
      IndentHead(rest);
      var z := [s[0]] + y;
      if s[0] != '\r' {
        assert z[0] != nt[0];
      } else if |s| == 1 {
        assert |z| < |nt|;
      } else {
        assert z[1] == s[1] && s[1] != '\n';
        assert z[1] != nt[1];
      }
      assert !StartsWith(z, nt);
      assert ([s[0]] + y)[1..] == y;
      assert s == [s[0]] + rest;
    }
  }

  /** A rule block gives back the script it was rendered from. */
  lemma RuleBlockRoundTrip(rule: RuleText)
    ensures ScriptOf(rule.property, RuleBlock(rule)) == Some(rule.script)
  {
    var h := RuleHeader(rule.property);
    var f := RuleFooter(rule.property);
    var b := RuleBlock(rule);
    assert b[|h|..|b| - |f|] == Indent(rule.script);
    assert StartsWith(b, h) && EndsWith(b, f);
    UnindentIndent(rule.script);
  }

  /** Adding a rule adds its block at the end of the code file. */
  lemma RenderRulesSnoc(rules: seq<RuleText>, rule: RuleText)
    ensures RenderRules(rules + [rule]) == RenderRules(rules) + RuleBlock(rule)
  {
    assert (rules + [rule])[..|rules|] == rules;
  }

  /** The code file is the rule blocks concatenated, whatever the split into parts. */
  lemma {:induction false} RenderRulesAppend(a: seq<RuleText>, b: seq<RuleText>)
    ensures RenderRules(a + b) == RenderRules(a) + RenderRules(b)
    decreases |b|
  {
    if b == [] {
      assert a + b == a;
    } else {
      var b', last := b[..|b| - 1], b[|b| - 1];
      calc {
        RenderRules(a + b);
        { assert a + b == (a + b') + [last]; RenderRulesSnoc(a + b', last); }
        RenderRules(a + b') + RuleBlock(last);
        { RenderRulesAppend(a, b'); }
        RenderRules(a) + RenderRules(b') + RuleBlock(last);
        { assert b == b' + [last]; RenderRulesSnoc(b', last); }
        RenderRules(a) + RenderRules(b);
      }
    }
  }

  /** The ChildOrder records of a control's first k children, in child order. */
  function ChildOrders(m: ControlTree, k: nat): (r: seq<ChildOrder>)
    requires k <= |m.children|
    ensures |r| == k
    decreases m, k
  {
    if k == 0 then [] else ChildOrders(m, k - 1) + [ChildOrder(m.children[k - 1].name, OrderOf(m.children[k - 1]))]
  }

  /** Record i names child i and carries that child's own order. */
  lemma {:induction false} ChildOrderAt(m: ControlTree, k: nat, i: nat)
    requires i < k <= |m.children|
    ensures ChildOrders(m, k)[i] == ChildOrder(m.children[i].name, OrderOf(m.children[i]))
    decreases k
  {
    if i < k - 1 {
      ChildOrderAt(m, k - 1, i);
    }
  }

  /** ChildrenOrder after the walk: null when there are no children. */
  function OrderOf(m: ControlTree): ChildrenOrder
    decreases m, |m.children| + 1
  {
    if |m.children| == 0 then Null else OrderList(ChildOrders(m, |m.children|))
  }

  /** A control tree reduced to its names. */
  datatype Skeleton = Skeleton(name: string, children: seq<Skeleton>)

  function SkeletonOf(m: ControlTree): Skeleton {
    Skeleton(m.name, seq(|m.children|, i requires 0 <= i < |m.children| => SkeletonOf(m.children[i])))
  }

  /** What the packer can rebuild from a control's name and its ChildrenOrder. */
  function Rebuild(name: string, order: ChildrenOrder): Skeleton
    decreases order
  {
    match order
    case Null => Skeleton(name, [])
    case OrderList(records) =>
      Skeleton(name, seq(|records|, i requires 0 <= i < |records| => Rebuild(records[i].name, records[i].childrenOrder)))
  }

  /** ChildrenOrder loses nothing: names and nesting of the whole subtree come back from it. */
  lemma {:induction false} RebuildFromOrder(m: ControlTree)
    ensures Rebuild(m.name, OrderOf(m)) == SkeletonOf(m)
    decreases m
  {
    if |m.children| > 0 {
      var records := ChildOrders(m, |m.children|);
      forall i | 0 <= i < |m.children|
        ensures Rebuild(records[i].name, records[i].childrenOrder) == SkeletonOf(m.children[i])
      {
        ChildOrderAt(m, |m.children|, i);
        RebuildFromOrder(m.children[i]);
      }
    }
  }

  /** The residual of a control: rules without scripts, the child order in place of the children. */
  function Residual(m: ControlTree): ControlData {
    ControlData(m.name, seq(|m.rules|, i requires 0 <= i < |m.rules| => RuleData(m.rules[i].property, None)), OrderOf(m))
  }

  /** The extractor calls for a control's rules, in rule order. */
  function RuleCalls(rules: seq<RuleText>, scope: seq<string>): seq<ExtractorCall> {
    seq(|rules|, i requires 0 <= i < |rules| => Extract(scope, RuleFields(rules[i].property)))
  }

  /** The extractor calls of the walk over one control, made from the given scope. */
  function Calls(m: ControlTree, scope: seq<string>): seq<ExtractorCall>
    decreases m, |m.children| + 1
  {
    var inner := scope + [m.name];
    [PushControl(m.name)] + RuleCalls(m.rules, inner) + ChildCalls(m, |m.children|, inner)
    + (if m.hasComponentChildren then [Extract(inner, ComponentChildren(m.name))] else [])
    + [Extract(inner, ControlFields(m.name)), PopControl]
  }

  /** The extractor calls of the walks over the first k children. */
  function ChildCalls(m: ControlTree, k: nat, scope: seq<string>): seq<ExtractorCall>
    requires k <= |m.children|
    decreases m, k
  {
    if k == 0 then [] else ChildCalls(m, k - 1, scope) + Calls(m.children[k - 1], scope)
  }

  /** The code file of a control: <directory>\<name>.js. */
  function CodeFilePath(directory: string, name: string): string {
    PathJoin(directory, name) + CodeFileExt
  }

  /** The data file of a control: named after its directory, inside it, with .json. */
  function DataFilePath(directory: string): string {
    PathCombine(directory, GetFileName(directory)) + DataFileExt
  }

  /** The file operations of the walk over one control in the given directory. */
  function Ops(m: ControlTree, directory: string, isTop: bool,
               serializeScreen: ControlData -> string, serializeControl: ControlData -> string): seq<FileOp>
    decreases m, |m.children| + 1
  {
    [FileOp.CreateDirectory(directory), WriteFile(CodeFilePath(directory, m.name), RenderRules(m.rules))]
    + ChildOps(m, |m.children|, directory, serializeScreen, serializeControl)
    + [WriteFile(DataFilePath(directory),
                 if isTop then serializeScreen(Residual(m)) else serializeControl(Residual(m)))]
  }

  /** The file operations of the walks over the first k children, each in its own subdirectory. */
  function ChildOps(m: ControlTree, k: nat, directory: string,
                    serializeScreen: ControlData -> string, serializeControl: ControlData -> string): seq<FileOp>
    requires k <= |m.children|
    decreases m, k
  {
    if k == 0 then []
    else
      var child := m.children[k - 1];
      ChildOps(m, k - 1, directory, serializeScreen, serializeControl)
      + Ops(child, PathCombine(directory, child.name), false, serializeScreen, serializeControl)
  }

  lemma {:induction false} RuleCallsBalanced(rules: seq<RuleText>, scope: seq<string>)
    ensures Replay(scope, RuleCalls(rules, scope)) == Some(scope)
    decreases |rules|
  {
    if rules != [] {
      assert RuleCalls(rules, scope) == [Extract(scope, RuleFields(rules[0].property))] + RuleCalls(rules[1..], scope);
      RuleCallsBalanced(rules[1..], scope);
    }
  }

  /**
   * The walk over a control leaves the extractor's scope as it found it, never pops
   * an empty scope, and makes every extraction in the scope it is recorded with.
   */
  lemma {:induction false} WalkBalanced(m: ControlTree, scope: seq<string>)
    ensures Replay(scope, Calls(m, scope)) == Some(scope)
    decreases m, |m.children| + 1
  {
    var inner := scope + [m.name];
    var comp := if m.hasComponentChildren then [Extract(inner, ComponentChildren(m.name))] else [];
    var tail := [Extract(inner, ControlFields(m.name)), PopControl];
    var a := RuleCalls(m.rules, inner);
    var b := ChildCalls(m, |m.children|, inner);
    var body := a + b + comp + tail;
    assert Calls(m, scope) == [PushControl(m.name)] + body;
    assert ([PushControl(m.name)] + body)[1..] == body;
    assert Replay(scope, Calls(m, scope)) == Replay(inner, body);
    RuleCallsBalanced(m.rules, inner);
    ChildrenBalanced(m, |m.children|, inner);
    ReplayAppend(inner, a, b);
    ReplayAppend(inner, a + b, comp);
    ReplayAppend(inner, a + b + comp, tail);
    assert Replay(inner, comp) == Some(inner) by {
      if m.hasComponentChildren {
        assert comp[1..] == [];
      }
    }
    assert inner[..|inner| - 1] == scope;
    assert tail[1..] == [PopControl] && tail[1..][1..] == [];
    assert Replay(inner, [PopControl]) == Replay(scope, []);
    assert Replay(inner, tail) == Some(scope);
  }

  lemma {:induction false} ChildrenBalanced(m: ControlTree, k: nat, scope: seq<string>)
    requires k <= |m.children|
    ensures Replay(scope, ChildCalls(m, k, scope)) == Some(scope)
    decreases m, k
  {
    if k > 0 {
      ChildrenBalanced(m, k - 1, scope);
      WalkBalanced(m.children[k - 1], scope);
      ReplayAppend(scope, ChildCalls(m, k - 1, scope), Calls(m.children[k - 1], scope));
    }
  }

  /** IRule: the script is the part the walk changes. */
  class Rule {
    const property: string
    var invariantScript: Option<string>

    constructor (property: string, script: string)
      ensures this.property == property && invariantScript == Some(script)
    {
      this.property := property;
      invariantScript := Some(script);
    }
  }

  /**
   * IControl. The ghost constants fix the object structure as deserialized: the
   * children, every control below this one, and every rule of this subtree.
   */
  class Control {
    const name: string
    const rules: seq<Rule>
    /** Template?.ComponentDefinitionInfo?.Children is not null */
    const hasComponentChildren: bool
    var children: Option<seq<Control>>
    var childrenOrder: ChildrenOrder

    ghost const kids: seq<Control>
    ghost const Descendants: set<Control>
    /** The rules of the controls below this one. */
    ghost const BelowRules: set<Rule>
    /** The rules of this control and of the controls below it. */
    ghost const RuleSet: set<Rule>

    ghost function Nodes(): set<Control> {
      {this} + Descendants
    }

    /** A tree without sharing: distinct rules, children with disjoint subtrees. */
    ghost predicate WellFormed()
      decreases Descendants
    {
      && this !in Descendants
      && BelowRules <= RuleSet
      && (forall i, j :: 0 <= i < j < |rules| ==> rules[i] != rules[j])
      && (forall i :: 0 <= i < |rules| ==> rules[i] in RuleSet && rules[i] !in BelowRules)
      && (forall i, j :: 0 <= i < j < |kids| ==> kids[i].Nodes() !! kids[j].Nodes() && kids[i].RuleSet !! kids[j].RuleSet)
      && (forall i :: 0 <= i < |kids| ==>
            && kids[i] in Descendants && kids[i].Descendants <= Descendants && kids[i].RuleSet <= BelowRules
            && kids[i] !in kids[i].Descendants && kids[i].WellFormed())
    }

    /** The objects hold the deserialized tree m. */
    ghost predicate Matches(m: ControlTree)
      requires WellFormed()
      reads this, Descendants, RuleSet
      decreases m, 1
    {
      && name == m.name && hasComponentChildren == m.hasComponentChildren
      && |rules| == |m.rules|
      && (forall i :: 0 <= i < |rules| ==>
            rules[i].property == m.rules[i].property && rules[i].invariantScript == Some(m.rules[i].script))
      && children == Some(kids) && KidsMatch(m)
    }

    /** Every child holds the corresponding subtree of m. */
    ghost predicate KidsMatch(m: ControlTree)
      requires WellFormed()
      reads Descendants, BelowRules
      decreases m, 0
    {
      |kids| == |m.children| && forall i :: 0 <= i < |kids| ==> kids[i].Matches(m.children[i])
    }

    /** The objects hold what the walk leaves of m: no scripts, no children, the child order. */
    ghost predicate Parsed(m: ControlTree)
      requires WellFormed()
      reads this, Descendants, RuleSet
      decreases m, 1
    {
      && name == m.name && |rules| == |m.rules|
      && (forall i :: 0 <= i < |rules| ==> rules[i].property == m.rules[i].property && rules[i].invariantScript == None)
      && children == None && childrenOrder == OrderOf(m) && KidsParsed(m)
    }

    /** Every child holds what the walk leaves of the corresponding subtree of m. */
    ghost predicate KidsParsed(m: ControlTree)
      requires WellFormed()
      reads Descendants, BelowRules
      decreases m, 0
    {
      |kids| == |m.children| && forall i :: 0 <= i < |kids| ==> kids[i].Parsed(m.children[i])
    }

    /** What control.Serialize sees of this control. */
    function Snapshot(): ControlData
      reads this, rules
    {
      ControlData(name, seq(|rules|, i reads rules requires 0 <= i < |rules| => RuleData(rules[i].property, rules[i].invariantScript)), childrenOrder)
    }
  }

  /** The three appended lines of a rule make up its block. */
  lemma BlockAppend(before: string, property: string, script: string)
    ensures before + property + "(){" + NewLine + "\t" + Indent(script) + NewLine + EndOfRuleCode + property + NewLine + NewLine
      == before + RuleBlock(RuleText(property, script))
  {
  }

  /** The rules of c, all different objects, hold the given properties. */
  predicate RulesAre(c: Control, rules: seq<RuleText>) {
    && |c.rules| == |rules|
    && (forall i, j :: 0 <= i < j < |c.rules| ==> c.rules[i] != c.rules[j])
    && (forall i :: 0 <= i < |c.rules| ==> c.rules[i].property == rules[i].property)
  }

  /**
   * The state of the rule loop after i turns: the first i blocks rendered and their
   * scripts cleared, the other scripts untouched, one extraction per rendered rule.
   */
  ghost predicate RulesDone(c: Control, rules: seq<RuleText>, i: nat, sb: string,
                            ex: AutoValueExtractor, scope: seq<string>, calls0: seq<ExtractorCall>)
    requires RulesAre(c, rules)
    reads c.rules, ex
  {
    && i <= |rules|
    && sb == RenderRules(rules[..i])
    && (forall k :: 0 <= k < i ==> c.rules[k].invariantScript == None)
    && (forall k :: i <= k < |c.rules| ==> c.rules[k].invariantScript == Some(rules[k].script))
    && ex.path == scope && ex.calls == calls0 + RuleCalls(rules[..i], scope)
  }

  /** The rule loop of ParseControl: extract, render, clear the script, rule by rule. */
  method RenderControlRules(c: Control, ex: AutoValueExtractor, ghost rules: seq<RuleText>) returns (code: string)
    requires RulesAre(c, rules)
    requires forall i :: 0 <= i < |c.rules| ==> c.rules[i].invariantScript == Some(rules[i].script)
    modifies c.rules, ex
    ensures code == RenderRules(rules)
    ensures forall i :: 0 <= i < |c.rules| ==> c.rules[i].invariantScript == None
    ensures ex.path == old(ex.path) && ex.calls == old(ex.calls) + RuleCalls(rules, old(ex.path))
  {
    ghost var scope, calls0 := ex.path, ex.calls;
    var sb := "";
    var i := 0;
    assert rules[..0] == [] && calls0 + [] == calls0;
    while i < |c.rules|
      invariant RulesDone(c, rules, i, sb, ex, scope, calls0)
    {
      sb := RenderRule(c, i, sb, ex, rules, scope, calls0);
      i := i + 1;
    }
    assert rules[..i] == rules;
    code := sb;
  }

  /** One turn of the rule loop: the three AppendLine calls for rule i, then its script set to null. */
  method RenderRule(c: Control, i: nat, sb: string, ex: AutoValueExtractor,
                    ghost rules: seq<RuleText>, ghost scope: seq<string>, ghost calls0: seq<ExtractorCall>)
    returns (sb': string)
    requires RulesAre(c, rules) && i < |c.rules| && RulesDone(c, rules, i, sb, ex, scope, calls0)
    modifies c.rules[i], ex
    ensures RulesDone(c, rules, i + 1, sb', ex, scope, calls0)
  {
    var rule := c.rules[i];
    ex.Extract(RuleFields(rule.property));
    var script := rule.invariantScript.value;
    sb' := sb + rule.property + "(){" + NewLine;
    sb' := sb' + "\t" + Indent(script) + NewLine;
    sb' := sb' + EndOfRuleCode + rule.property + NewLine + NewLine;
    rule.invariantScript := None;
    BlockAppend(sb, rule.property, script);
    assert rules[..i + 1] == rules[..i] + [rules[i]];
    RenderRulesSnoc(rules[..i], rules[i]);
    assert RuleCalls(rules[..i + 1], scope) == RuleCalls(rules[..i], scope) + [Extract(scope, RuleFields(rule.property))];
  }

  /**
   * ParseControl. The screen's TopParent is the control whose data file is the
   * serialized screen; it is never below the control being walked.
   */
  method ParseControl(c: Control, directory: string, topParent: Control,
                      serializeScreen: ControlData -> string, serializeControl: ControlData -> string,
                      ex: AutoValueExtractor, fs: FileSystem, ghost m: ControlTree)
    requires c.WellFormed() && c.Matches(m) && topParent !in c.Descendants
    modifies c.Nodes(), c.RuleSet, ex, fs
    decreases m, 3
    ensures c.Parsed(m)
    ensures ex.path == old(ex.path) && ex.calls == old(ex.calls) + Calls(m, old(ex.path))
    ensures fs.log == old(fs.log) + Ops(m, directory, c == topParent, serializeScreen, serializeControl)
  {
    ghost var scope := ex.path;
    ghost var inner := scope + [m.name];
    assert Progress(c, m, 0);
    OpenControl(c, directory, ex, fs, m);
    var isTop := c == topParent;
    WalkAndClose(c, directory, topParent, isTop, serializeScreen, serializeControl, ex, fs, m);
    assert inner[..|inner| - 1] == scope;
    ghost var comp := if m.hasComponentChildren then [Extract(inner, ComponentChildren(m.name))] else [];
    Regroup(old(ex.calls), [PushControl(m.name)], RuleCalls(m.rules, inner), ChildCalls(m, |m.children|, inner),
            comp, [Extract(inner, ControlFields(m.name)), PopControl]);
    RegroupThree(old(fs.log), [FileOp.CreateDirectory(directory), WriteFile(CodeFilePath(directory, m.name), RenderRules(m.rules))],
                 ChildOps(m, |m.children|, directory, serializeScreen, serializeControl),
                 [WriteFile(DataFilePath(directory), if isTop then serializeScreen(Residual(m)) else serializeControl(Residual(m)))]);
  }

  /** The rest of ParseControl once the rules are rendered: the children in order, then the control itself. */
  method WalkAndClose(c: Control, directory: string, topParent: Control, isTop: bool,
                      serializeScreen: ControlData -> string, serializeControl: ControlData -> string,
                      ex: AutoValueExtractor, fs: FileSystem, ghost m: ControlTree)
    requires c.WellFormed() && topParent !in c.Descendants && c.children == Some(c.kids) && Progress(c, m, 0)
    requires c.name == m.name && c.hasComponentChildren == m.hasComponentChildren && |c.rules| == |m.rules| && |ex.path| > 0
    requires forall i :: 0 <= i < |c.rules| ==> c.rules[i].property == m.rules[i].property && c.rules[i].invariantScript == None
    modifies c, c.Descendants, c.BelowRules, ex, fs
    decreases m, 2
    ensures c.Parsed(m)
    ensures ex.path == old(ex.path)[..|old(ex.path)| - 1]
    ensures ex.calls == old(ex.calls) + ChildCalls(m, |m.children|, old(ex.path))
      + (if m.hasComponentChildren then [Extract(old(ex.path), ComponentChildren(m.name))] else [])
      + [Extract(old(ex.path), ControlFields(m.name)), PopControl]
    ensures fs.log == old(fs.log) + ChildOps(m, |m.children|, directory, serializeScreen, serializeControl)
      + [WriteFile(DataFilePath(directory), if isTop then serializeScreen(Residual(m)) else serializeControl(Residual(m)))]
  {
    var order := ParseChildren(c, directory, topParent, serializeScreen, serializeControl, ex, fs, m);
    assert c.KidsParsed(m);
    CloseControl(c, directory, isTop, serializeScreen, serializeControl, ex, fs, m, order);
  }

  /** Local proof helpers: sequence concatenation regrouped for the call and file logs. */
  lemma Regroup<T>(x: seq<T>, a: seq<T>, b: seq<T>, c: seq<T>, d: seq<T>, e: seq<T>)
    ensures x + a + b + c + d + e == x + (a + b + c + d + e)
  {
  }

  lemma RegroupTwo<T>(x: seq<T>, a: seq<T>, b: seq<T>)
    ensures x + a + b == x + (a + b)
  {
  }

  lemma RegroupThree<T>(x: seq<T>, a: seq<T>, b: seq<T>, c: seq<T>)
    ensures x + a + b + c == x + (a + b + c)
  {
  }

  /** Entering a control: its scope, its directory, and its code file of rendered rules. */
  method OpenControl(c: Control, directory: string, ex: AutoValueExtractor, fs: FileSystem, ghost m: ControlTree)
    requires c.WellFormed() && c.Matches(m)
    modifies c.rules, ex, fs
    ensures forall i :: 0 <= i < |c.rules| ==> c.rules[i].invariantScript == None
    ensures ex.path == old(ex.path) + [m.name]
    ensures ex.calls == old(ex.calls) + [PushControl(m.name)] + RuleCalls(m.rules, old(ex.path) + [m.name])
    ensures fs.log == old(fs.log) + [FileOp.CreateDirectory(directory), WriteFile(CodeFilePath(directory, m.name), RenderRules(m.rules))]
  {
    assert RulesAre(c, m.rules) && c.name == m.name;
    ex.PushControl(c.name);
    fs.CreateDirectory(directory);
    var code := RenderControlRules(c, ex, m.rules);
    fs.WriteAllText(CodeFilePath(directory, c.name), code);
  }

  /** Leaving a control: component children, the child order, the data file, the scope. */
  method CloseControl(c: Control, directory: string, isTop: bool,
                      serializeScreen: ControlData -> string, serializeControl: ControlData -> string,
                      ex: AutoValueExtractor, fs: FileSystem, ghost m: ControlTree, order: seq<ChildOrder>)
    requires c.WellFormed() && c.name == m.name && c.hasComponentChildren == m.hasComponentChildren
    requires |c.rules| == |m.rules| && c.KidsParsed(m) && |ex.path| > 0
    requires forall i :: 0 <= i < |c.rules| ==> c.rules[i].property == m.rules[i].property && c.rules[i].invariantScript == None
    requires order == ChildOrders(m, |m.children|)
    modifies c, ex, fs
    ensures c.Parsed(m)
    ensures ex.path == old(ex.path)[..|old(ex.path)| - 1]
    ensures ex.calls == old(ex.calls)
      + (if m.hasComponentChildren then [Extract(old(ex.path), ComponentChildren(m.name))] else [])
      + [Extract(old(ex.path), ControlFields(m.name)), PopControl]
    ensures fs.log == old(fs.log) + [WriteFile(DataFilePath(directory),
                                               if isTop then serializeScreen(Residual(m)) else serializeControl(Residual(m)))]
  {
    if c.hasComponentChildren {
      ex.Extract(ComponentChildren(c.name));
    }
    SetChildrenOrder(c, m, order);
    SaveControl(c, directory, isTop, serializeScreen, serializeControl, ex, fs, m);
  }

  /** Children = null; ChildrenOrder = the recorded order, or null when there are no children. */
  method SetChildrenOrder(c: Control, ghost m: ControlTree, order: seq<ChildOrder>)
    requires c.WellFormed() && c.name == m.name
    requires |c.rules| == |m.rules| && c.KidsParsed(m)
    requires forall i :: 0 <= i < |c.rules| ==> c.rules[i].property == m.rules[i].property && c.rules[i].invariantScript == None
    requires order == ChildOrders(m, |m.children|)
    modifies c
    ensures c.Parsed(m)
  {
    c.children := None;
    c.childrenOrder := if |order| == 0 then Null else OrderList(order);
  }

  /** The control's own extraction, its data file, and the end of its scope. */
  method SaveControl(c: Control, directory: string, isTop: bool,
                     serializeScreen: ControlData -> string, serializeControl: ControlData -> string,
                     ex: AutoValueExtractor, fs: FileSystem, ghost m: ControlTree)
    requires c.name == m.name && |c.rules| == |m.rules| && c.childrenOrder == OrderOf(m) && |ex.path| > 0
    requires forall i :: 0 <= i < |c.rules| ==> c.rules[i].property == m.rules[i].property && c.rules[i].invariantScript == None
    modifies ex, fs
    ensures ex.path == old(ex.path)[..|old(ex.path)| - 1]
    ensures ex.calls == old(ex.calls) + [Extract(old(ex.path), ControlFields(m.name)), PopControl]
    ensures fs.log == old(fs.log) + [WriteFile(DataFilePath(directory),
                                               if isTop then serializeScreen(Residual(m)) else serializeControl(Residual(m)))]
  {
    ex.Extract(ControlFields(c.name));
    WriteData(c, directory, isTop, serializeScreen, serializeControl, fs, m);
    ex.PopControl();
  }

  /** The control's data file: what is left of it, serialized as the screen or as a control. */
  method WriteData(c: Control, directory: string, isTop: bool,
                   serializeScreen: ControlData -> string, serializeControl: ControlData -> string,
                   fs: FileSystem, ghost m: ControlTree)
    requires c.name == m.name && |c.rules| == |m.rules| && c.childrenOrder == OrderOf(m)
    requires forall i :: 0 <= i < |c.rules| ==> c.rules[i].property == m.rules[i].property && c.rules[i].invariantScript == None
    modifies fs
    ensures fs.log == old(fs.log) + [WriteFile(DataFilePath(directory),
                                               if isTop then serializeScreen(Residual(m)) else serializeControl(Residual(m)))]
  {
    var data := c.Snapshot();
    assert data == Residual(m);
    var text := if isTop then serializeScreen(data) else serializeControl(data);
    var path := DataFilePath(directory);
    fs.WriteAllText(path, text);
  }

  /** After i turns of the children loop: the first i children are walked, the others untouched. */
  ghost predicate Progress(c: Control, m: ControlTree, i: nat)
    requires c.WellFormed()
    reads c.Descendants, c.BelowRules
  {
    && |c.kids| == |m.children| && i <= |c.kids|
    && (forall k :: 0 <= k < i ==> c.kids[k].Parsed(m.children[k]))
    && (forall k :: i <= k < |c.kids| ==> c.kids[k].Matches(m.children[k]))
  }

  /**
   * The state of the children loop after i turns: the first i children walked, their
   * records collected, their extractor calls and file operations appended.
   */
  ghost predicate ChildrenDone(c: Control, m: ControlTree, i: nat, order: seq<ChildOrder>, directory: string,
                               serializeScreen: ControlData -> string, serializeControl: ControlData -> string,
                               ex: AutoValueExtractor, fs: FileSystem, scope: seq<string>,
                               calls0: seq<ExtractorCall>, log0: seq<FileOp>)
    requires c.WellFormed()
    reads c.Descendants, c.BelowRules, ex, fs
  {
    && Progress(c, m, i)
    && order == ChildOrders(m, i)
    && ex.path == scope && ex.calls == calls0 + ChildCalls(m, i, scope)
    && fs.log == log0 + ChildOps(m, i, directory, serializeScreen, serializeControl)
  }

  /** The children loop of ParseControl: each child walked in its own subdirectory, in order. */
  method ParseChildren(c: Control, directory: string, topParent: Control,
                       serializeScreen: ControlData -> string, serializeControl: ControlData -> string,
                       ex: AutoValueExtractor, fs: FileSystem, ghost m: ControlTree)
    returns (order: seq<ChildOrder>)
    requires c.WellFormed() && topParent !in c.Descendants
    requires c.children == Some(c.kids) && Progress(c, m, 0)
    modifies c.Descendants, c.BelowRules, ex, fs
    decreases m, 1
    ensures Progress(c, m, |m.children|)
    ensures order == ChildOrders(m, |m.children|)
    ensures ex.path == old(ex.path) && ex.calls == old(ex.calls) + ChildCalls(m, |m.children|, old(ex.path))
    ensures fs.log == old(fs.log) + ChildOps(m, |m.children|, directory, serializeScreen, serializeControl)
  {
    var kids := c.children.value;
    ghost var scope, calls0, log0 := ex.path, ex.calls, fs.log;
    order := [];
    var i := 0;
    assert fs.log == log0 + [] && ex.calls == calls0 + [];
    while i < |kids|
      invariant i <= |kids| == |c.kids|
      invariant ChildrenDone(c, m, i, order, directory, serializeScreen, serializeControl, ex, fs, scope, calls0, log0)
    {
      order := ParseChild(c, kids[i], i, order, directory, topParent, serializeScreen, serializeControl,
                          ex, fs, m, scope, calls0, log0);
      i := i + 1;
    }
  }

  /** One turn of the children loop: child i is walked, its siblings are left alone. */
  method ParseChild(c: Control, child: Control, i: nat, order: seq<ChildOrder>, directory: string, topParent: Control,
                    serializeScreen: ControlData -> string, serializeControl: ControlData -> string,
                    ex: AutoValueExtractor, fs: FileSystem, ghost m: ControlTree,
                    ghost scope: seq<string>, ghost calls0: seq<ExtractorCall>, ghost log0: seq<FileOp>)
    returns (order': seq<ChildOrder>)
    requires c.WellFormed() && topParent !in c.Descendants && i < |c.kids| && child == c.kids[i]
    requires ChildrenDone(c, m, i, order, directory, serializeScreen, serializeControl, ex, fs, scope, calls0, log0)
    modifies child.Nodes(), child.RuleSet, ex, fs
    decreases m, 0
    ensures ChildrenDone(c, m, i + 1, order', directory, serializeScreen, serializeControl, ex, fs, scope, calls0, log0)
  {
    SplitProgress(c, m, i);
    ParseControl(child, PathCombine(directory, child.name), topParent, serializeScreen, serializeControl, ex, fs, m.children[i]);
    JoinProgress(c, m, i);
    ChildCallsStep(m, i, ex.path, calls0, old(ex.calls));
    ChildOpsStep(m, i, directory, serializeScreen, serializeControl, log0, old(fs.log));
    order' := order + [ChildOrder(child.name, child.childrenOrder)];
  }

  /**
   * The loop's progress without child i: what walking child i cannot touch, since
   * the subtrees of different children share no control and no rule.
   */
  ghost predicate Siblings(c: Control, m: ControlTree, i: nat)
    requires c.WellFormed() && i < |c.kids|
    reads c.Descendants - c.kids[i].Nodes(), c.BelowRules - c.kids[i].RuleSet
  {
    && |c.kids| == |m.children|
    && (forall k :: 0 <= k < i ==> c.kids[k].Parsed(m.children[k]))
    && (forall k :: i < k < |c.kids| ==> c.kids[k].Matches(m.children[k]))
  }

  /** Before child i is walked: it holds its subtree, and its siblings are as the loop left them. */
  lemma SplitProgress(c: Control, m: ControlTree, i: nat)
    requires c.WellFormed() && i < |c.kids| && Progress(c, m, i)
    ensures Siblings(c, m, i) && c.kids[i].Matches(m.children[i])
  {
  }

  /** After child i is walked, with its siblings untouched, the loop has made one more turn. */
  lemma JoinProgress(c: Control, m: ControlTree, i: nat)
    requires c.WellFormed() && i < |c.kids| && Siblings(c, m, i) && c.kids[i].Parsed(m.children[i])
    ensures Progress(c, m, i + 1)
  {
  }

  lemma ChildCallsStep(m: ControlTree, i: nat, scope: seq<string>, calls0: seq<ExtractorCall>, calls: seq<ExtractorCall>)
    requires i < |m.children| && calls == calls0 + ChildCalls(m, i, scope)
    ensures calls + Calls(m.children[i], scope) == calls0 + ChildCalls(m, i + 1, scope)
  {
    RegroupTwo(calls0, ChildCalls(m, i, scope), Calls(m.children[i], scope));
  }

  lemma ChildOpsStep(m: ControlTree, i: nat, directory: string,
                     serializeScreen: ControlData -> string, serializeControl: ControlData -> string,
                     log0: seq<FileOp>, log: seq<FileOp>)
    requires i < |m.children| && log == log0 + ChildOps(m, i, directory, serializeScreen, serializeControl)
    ensures log + Ops(m.children[i], PathCombine(directory, m.children[i].name), false, serializeScreen, serializeControl)
      == log0 + ChildOps(m, i + 1, directory, serializeScreen, serializeControl)
  {
    RegroupTwo(log0, ChildOps(m, i, directory, serializeScreen, serializeControl),
               Ops(m.children[i], PathCombine(directory, m.children[i].name), false, serializeScreen, serializeControl));
  }
}
