/** Building a behaviour tree from its declaration (internal/core/npc/loader.go). `Plain` is what
    recursion without a memo would build; the `Builder` shares one node among all references. */
module TreeLoader {
  import opened Options

  datatype Result<+T> = Ok(value: T) | Err(error: Error)

  datatype Error =
    | UnknownNode(name: string)
    | UnsupportedType(kind: string)
    | NeedsChild(name: string)
    | FromFactory(code: int)
    | SensorFailed(name: string, cause: Error)

  /** A parameter value: the loader itself looks only at strings. */
  datatype Param = Text(s: string) | Other(n: int)

  type Params = map<string, Param>

  /** What a factory of the registry makes. */
  datatype Part = Part(id: int)

  type Factory = (string, Params) -> Result<Part>

  datatype Registry = Registry(action: Factory, condition: Factory, decorator: Factory, sensor: Factory)

  datatype Declared = Declared(kind: string, children: seq<string>, child: string,
                               action: string, condition: string, params: Params)

  datatype DeclaredSensor = DeclaredSensor(name: string, kind: string, params: Params)

  datatype Config = Config(root: string, nodes: map<string, Declared>, sensors: seq<DeclaredSensor>)

  datatype Grouping = InSequence | InSelector | InParallel(oneSuffices: bool) | AtRandom | ByPriority

  datatype Label = Group(name: string, how: Grouping) | Wrapper(part: Part) | Leaf(part: Part)

  datatype Plan = Plan(what: Label, children: seq<Plan>)

  function Make(factory: Factory, name: string, params: Params): Result<Part> { factory(name, params) }

  /** The policy of a Parallel node: anything but "one" and "any" asks for every child. */
  predicate OneSuffices(params: Params) {
    "policy" in params && params["policy"].Text? && params["policy"].s in ["one", "any"]
  }

  function GroupingOf(d: Declared): Option<Grouping> {
    if d.kind == "Sequence" || d.kind == "sequence" then Some(InSequence)
    else if d.kind == "Selector" || d.kind == "selector" then Some(InSelector)
    else if d.kind == "Parallel" || d.kind == "parallel" then Some(InParallel(OneSuffices(d.params)))
    else if d.kind == "Random" || d.kind == "random" then Some(AtRandom)
    else if d.kind == "Priority" || d.kind == "priority" then Some(ByPriority)
    else None
  }

  predicate IsDecorator(d: Declared) { d.kind == "Decorator" || d.kind == "decorator" }

  predicate IsAction(d: Declared) { d.kind == "Action" || d.kind == "action" }

  predicate IsCondition(d: Declared) { d.kind == "Condition" || d.kind == "condition" }

  function DecoratorName(d: Declared): string {
    if "name" in d.params && d.params["name"].Text? then d.params["name"].s else ""
  }

  /** The names a declaration refers to, in order. */
  function Refs(d: Declared): seq<string> {
    if GroupingOf(d).Some? then d.children
    else if IsDecorator(d) && d.child != "" then [d.child]
    else []
  }

  function Relabel(r: Result<Part>, wrap: bool): Result<Label> {
    match r
    case Ok(part) => Ok(if wrap then Wrapper(part) else Leaf(part))
    case Err(e) => Err(e)
  }

  /** What the declaration of `name` itself asks for, or what is wrong with it. */
  function LabelOf(cfg: Config, reg: Registry, name: string): Result<Label> {
    if name !in cfg.nodes then Err(UnknownNode(name))
    else
      var d := cfg.nodes[name];
      if GroupingOf(d).Some? then Ok(Group(name, GroupingOf(d).value))
      else if IsDecorator(d) then
        var made := Relabel(Make(reg.decorator, DecoratorName(d), d.params), true);
        if made.Ok? && d.child == "" then Err(NeedsChild(name)) else made
      else if IsAction(d) then Relabel(Make(reg.action, d.action, d.params), false)
      else if IsCondition(d) then Relabel(Make(reg.condition, d.condition, d.params), false)
      else Err(UnsupportedType(d.kind))
  }

  // ---------- References ----------

  predicate Refers(cfg: Config, a: string, b: string) { a in cfg.nodes && b in Refs(cfg.nodes[a]) }

  ghost predicate Walk(cfg: Config, p: seq<string>) {
    forall i, j :: 0 <= i < j < |p| && j <= i + 1 ==> Refers(cfg, p[i], p[j])
  }

  ghost predicate WalkBetween(cfg: Config, p: seq<string>, a: string, b: string) {
    |p| >= 2 && p[0] == a && p[|p|-1] == b && Walk(cfg, p)
  }

  ghost predicate Reaches(cfg: Config, a: string, b: string) { exists p :: WalkBetween(cfg, p, a, b) }

  /** No name at or under `top` reaches itself. */
  ghost predicate Acyclic(cfg: Config, top: string) { forall a :: Under(cfg, top, a) ==> !Reaches(cfg, a, a) }

  ghost predicate Under(cfg: Config, top: string, name: string) { name == top || Reaches(cfg, top, name) }

  lemma ReachStep(cfg: Config, a: string, b: string, c: string)
    requires Refers(cfg, a, b) && Under(cfg, b, c)
    ensures Reaches(cfg, a, c)
  {
    hide Refers;
    if b == c { assert WalkBetween(cfg, [a, b], a, b); }
    else {
      var p :| WalkBetween(cfg, p, b, c);
      var q := [a] + p;
      forall i, j | 0 <= i < j < |q| && j <= i + 1 ensures Refers(cfg, q[i], q[j]) {
        if i > 0 { assert q[i] == p[i-1] && q[j] == p[j-1]; }
      }
      assert WalkBetween(cfg, q, a, c);
    }
  }

  lemma FirstStep(cfg: Config, a: string, c: string) returns (b: string)
    requires Reaches(cfg, a, c)
    ensures Refers(cfg, a, b) && Under(cfg, b, c)
  {
    hide Refers;
    var p :| WalkBetween(cfg, p, a, c);
    b := p[1];
    assert Refers(cfg, p[0], p[1]);
    if |p| > 2 {
      var q := p[1..];
      forall i, j | 0 <= i < j < |q| && j <= i + 1 ensures Refers(cfg, q[i], q[j]) {
        assert q[i] == p[i+1] && q[j] == p[j+1];
      }
      assert WalkBetween(cfg, q, b, c);
    }
  }

  /** How many declared names lie below: falls along every reference when there is no cycle. */
  ghost function Rank(cfg: Config, name: string): nat {
    if name in cfg.nodes then 1 + |set m | m in cfg.nodes && Reaches(cfg, name, m)| else 0
  }

  lemma SmallerSet<T>(a: set<T>, b: set<T>)
    requires a < b
    ensures |a| < |b|
  {
    assert |b - a| > 0 && b == a + (b - a);
  }

  lemma RankFalls(cfg: Config, a: string, b: string)
    requires Acyclic(cfg, a) && Refers(cfg, a, b)
    ensures Rank(cfg, b) < Rank(cfg, a) && Acyclic(cfg, b)
  {
    forall m | Under(cfg, b, m) ensures Under(cfg, a, m) { ReachStep(cfg, a, b, m); }
    assert Under(cfg, b, b);
    if b in cfg.nodes {
      var below, above := set m | m in cfg.nodes && Reaches(cfg, b, m), set m | m in cfg.nodes && Reaches(cfg, a, m);
      forall m | m in below ensures m in above { ReachStep(cfg, a, b, m); }
      ReachStep(cfg, a, b, b);
      assert b in above && b !in below;
      SmallerSet(below, above);
    }
  }

  // ---------- Plain recursion ----------

  ghost function Plain(cfg: Config, reg: Registry, name: string): Result<Plan>
    requires Acyclic(cfg, name)
    decreases Rank(cfg, name), 1, 0
  {
    match LabelOf(cfg, reg, name)
    case Err(e) => Err(e)
    case Ok(what) =>
      match PlainFrom(cfg, reg, name, 0)
      case Err(e) => Err(e)
      case Ok(plans) => Ok(Plan(what, plans))
  }

  ghost function PlainFrom(cfg: Config, reg: Registry, name: string, i: nat): Result<seq<Plan>>
    requires Acyclic(cfg, name) && name in cfg.nodes && i <= |Refs(cfg.nodes[name])|
    decreases Rank(cfg, name), 0, |Refs(cfg.nodes[name])| - i
  {
    var refs := Refs(cfg.nodes[name]);
    if i == |refs| then Ok([])
    else
      match PlainChild(cfg, reg, name, i)
      case Err(e) => Err(e)
      case Ok(p) =>
        match PlainFrom(cfg, reg, name, i + 1)
        case Err(e) => Err(e)
        case Ok(ps) => Ok([p] + ps)
  }

  ghost function PlainChild(cfg: Config, reg: Registry, name: string, i: nat): Result<Plan>
    requires Acyclic(cfg, name) && name in cfg.nodes && i < |Refs(cfg.nodes[name])|
    decreases Rank(cfg, name), 0, 0
  {
    RankFalls(cfg, name, Refs(cfg.nodes[name])[i]);
    Plain(cfg, reg, Refs(cfg.nodes[name])[i])
  }

  /** Every child built: the list is theirs, in order. */
  lemma {:induction false} AllPlain(cfg: Config, reg: Registry, name: string, i: nat)
    requires Acyclic(cfg, name) && name in cfg.nodes && i <= |Refs(cfg.nodes[name])|
    requires forall j :: i <= j < |Refs(cfg.nodes[name])| ==> PlainChild(cfg, reg, name, j).Ok?
    ensures var r, refs := PlainFrom(cfg, reg, name, i), Refs(cfg.nodes[name]);
            r.Ok? && |r.value| == |refs| - i &&
            forall j :: i <= j < |refs| ==> PlainChild(cfg, reg, name, j) == Ok(r.value[j-i])
    decreases |Refs(cfg.nodes[name])| - i
  {
    hide Refs, Acyclic, Plain, PlainChild, LabelOf, Rank;
    var refs := Refs(cfg.nodes[name]);
    if i < |refs| {
      assert PlainChild(cfg, reg, name, i).Ok?;
      AllPlain(cfg, reg, name, i + 1);
      var r, s := PlainFrom(cfg, reg, name, i), PlainFrom(cfg, reg, name, i + 1);
      forall j | i <= j < |refs| ensures PlainChild(cfg, reg, name, j) == Ok(r.value[j-i]) {
        if j > i { assert r.value[j-i] == s.value[j-(i+1)]; }
      }
    }
  }

  /** The first child that fails decides. */
  lemma {:induction false} FirstFailure(cfg: Config, reg: Registry, name: string, i: nat, k: nat)
    requires Acyclic(cfg, name) && name in cfg.nodes && i <= k < |Refs(cfg.nodes[name])|
    requires forall j :: i <= j < k ==> PlainChild(cfg, reg, name, j).Ok?
    requires PlainChild(cfg, reg, name, k).Err?
    ensures PlainFrom(cfg, reg, name, i) == Err(PlainChild(cfg, reg, name, k).error)
    decreases k - i
  {
    hide Refs, Acyclic, Plain, PlainChild, LabelOf, Rank;
    if i < k { FirstFailure(cfg, reg, name, i + 1, k); }
  }

  /** A tree is built exactly when every declaration under its root is in order. */
  lemma {:induction false} PlainSucceedsIff(cfg: Config, reg: Registry, name: string)
    requires Acyclic(cfg, name)
    ensures Plain(cfg, reg, name).Ok? <==> forall m :: Under(cfg, name, m) ==> LabelOf(cfg, reg, m).Ok?
    decreases Rank(cfg, name)
  {
    hide LabelOf;
    if LabelOf(cfg, reg, name).Ok? {
      DeclaredIfLabelled(cfg, reg, name);
      var refs := Refs(cfg.nodes[name]);
      forall j | 0 <= j < |refs|
        ensures PlainChild(cfg, reg, name, j).Ok? <==> forall m :: Under(cfg, refs[j], m) ==> LabelOf(cfg, reg, m).Ok?
      {
        RankFalls(cfg, name, refs[j]);
        PlainSucceedsIff(cfg, reg, refs[j]);
      }
      if j :| 0 <= j < |refs| && PlainChild(cfg, reg, name, j).Err? {
        var m :| Under(cfg, refs[j], m) && !LabelOf(cfg, reg, m).Ok?;
        ReachStep(cfg, name, refs[j], m);
        SomeFails(cfg, reg, name, j);
        assert Under(cfg, name, m);
      } else {
        AllPlain(cfg, reg, name, 0);
        forall m | Under(cfg, name, m) ensures LabelOf(cfg, reg, m).Ok? {
          if m != name {
            var b := FirstStep(cfg, name, m);
            var j :| 0 <= j < |refs| && refs[j] == b;
            assert PlainChild(cfg, reg, name, j).Ok?;
          }
        }
      }
    } else {
      assert Under(cfg, name, name);
    }
  }

  lemma DeclaredIfLabelled(cfg: Config, reg: Registry, name: string)
    requires LabelOf(cfg, reg, name).Ok?
    ensures name in cfg.nodes
  {
  }

  lemma {:induction false} SomeFails(cfg: Config, reg: Registry, name: string, k: nat)
    requires Acyclic(cfg, name) && name in cfg.nodes && k < |Refs(cfg.nodes[name])|
    requires PlainChild(cfg, reg, name, k).Err?
    ensures PlainFrom(cfg, reg, name, 0).Err?
    decreases k
  {
    hide Refs, Acyclic, Plain, PlainChild, LabelOf, Rank;
    if j :| 0 <= j < k && PlainChild(cfg, reg, name, j).Err? { SomeFails(cfg, reg, name, j); }
    else { FirstFailure(cfg, reg, name, 0, k); }
  }

  // ---------- The builder ----------

  class Node {
    const what: Label
    var children: seq<Node>

    constructor (what: Label)
      ensures this.what == what && children == []
    {
      this.what := what;
      children := [];
    }

    method SetChildren(nodes: seq<Node>)
      modifies this
      ensures children == nodes
    {
      children := nodes;
    }
  }

  /** The nodes under `n` spell out the plan. */
  ghost predicate Unfolds(n: Node, p: Plan, nodes: set<Node>)
    reads nodes
    decreases p
  {
    n in nodes && n.what == p.what && |n.children| == |p.children| &&
    forall i :: 0 <= i < |n.children| ==> Unfolds(n.children[i], p.children[i], nodes)
  }

  lemma Assembles(n: Node, p: Plan, nodes: set<Node>)
    requires n in nodes && n.what == p.what && |n.children| == |p.children|
    requires forall i :: 0 <= i < |n.children| ==> Unfolds(n.children[i], p.children[i], nodes)
    ensures Unfolds(n, p, nodes)
  {
  }

  type Table = map<string, Node>

  /** Names still being built are not needed below `name`. */
  ghost predicate Clear(cfg: Config, created: Table, made: multiset<string>, name: string) {
    forall m :: m in made && m !in created ==> !Reaches(cfg, name, m)
  }

  ghost predicate Extends(created: Table, created': Table) {
    forall m :: m in created ==> m in created' && created'[m] == created[m]
  }

  /** Whatever is made or stored anew lies under `top`. */
  ghost predicate Grows(cfg: Config, top: string, strict: bool, created: Table, made: multiset<string>, created': Table, made': multiset<string>) {
    && (forall m :: m in created' && m !in created ==> Below(cfg, top, strict, m))
    && made <= made'
    && (forall m :: m in made' && m !in made ==> Below(cfg, top, strict, m))
  }

  ghost predicate Below(cfg: Config, top: string, strict: bool, m: string) {
    Reaches(cfg, top, m) || (!strict && m == top)
  }

  /** Whatever was made anew is stored. */
  ghost predicate Stored(made: multiset<string>, created': Table, made': multiset<string>) {
    forall m :: m in made' && m !in made ==> m in created'
  }

  ghost predicate Once(created: Table, made: multiset<string>) {
    && (forall m :: made[m] <= 1)
    && (forall m :: m in created ==> m in made)
  }

  lemma ClearBelow(cfg: Config, created: Table, made: multiset<string>, a: string, b: string)
    requires Refers(cfg, a, b) && Clear(cfg, created, made, a)
    ensures Clear(cfg, created, made, b) && (b in made ==> b in created)
  {
    ReachStep(cfg, a, b, b);
    forall m | m in made && m !in created ensures !Reaches(cfg, b, m) {
      if Reaches(cfg, b, m) { ReachStep(cfg, a, b, m); }
    }
  }

  lemma GrowsChains(cfg: Config, a: string, b: string, c0: Table, m0: multiset<string>,
                    c1: Table, m1: multiset<string>, c2: Table, m2: multiset<string>)
    requires Refers(cfg, a, b)
    requires Grows(cfg, a, true, c0, m0, c1, m1) && Grows(cfg, b, false, c1, m1, c2, m2)
    ensures Grows(cfg, a, true, c0, m0, c2, m2)
  {
    hide Refers, Reaches;
    forall m | Below(cfg, b, false, m) ensures Below(cfg, a, true, m) { ReachStep(cfg, a, b, m); }
  }

  lemma StaysClear(cfg: Config, name: string, c0: Table, m0: multiset<string>, c1: Table, m1: multiset<string>)
    requires Clear(cfg, c0, m0, name) && Extends(c0, c1) && Stored(m0, c1, m1)
    ensures Clear(cfg, c1, m1, name)
  {
    hide Reaches;
  }

  class Builder {
    const cfg: Config
    const reg: Registry
    var created: Table
    /** The names a node was made for, in this build. */
    ghost var made: multiset<string>

    constructor (cfg: Config, reg: Registry)
      ensures this.cfg == cfg && this.reg == reg && created == map[] && made == multiset{}
    {
      this.cfg := cfg;
      this.reg := reg;
      created := map[];
      made := multiset{};
    }

    ghost predicate LinkedAt(n: string)
      requires n in created
      reads this`created, created[n]
    {
      && n in cfg.nodes
      && LabelOf(cfg, reg, n) == Ok(created[n].what)
      && var refs := Refs(cfg.nodes[n]);
         |created[n].children| == |refs| &&
         forall i :: 0 <= i < |refs| ==> refs[i] in created && created[n].children[i] == created[refs[i]]
    }

    /** Every stored node is what its declaration asks for, on the stored nodes it refers to. */
    ghost predicate Linked()
      reads this`created, created.Values
    {
      forall n :: n in created ==> LinkedAt(n)
    }

    /** A stored node is the root of what plain recursion builds for its name. */
    lemma {:induction false} LinkedIsPlain(name: string)
      requires Acyclic(cfg, name) && Linked() && name in created
      ensures var p := Plain(cfg, reg, name); p.Ok? && Unfolds(created[name], p.value, created.Values)
      decreases Rank(cfg, name)
    {
      hide LabelOf, Refs, Acyclic, Rank, Unfolds, Plain, PlainFrom, Refers;
      assert LinkedAt(name);
      var node, refs := created[name], Refs(cfg.nodes[name]);
      forall j | 0 <= j < |refs|
        ensures var p := PlainChild(cfg, reg, name, j);
                p.Ok? && Unfolds(node.children[j], p.value, created.Values)
      {
        RefersAt(cfg, name, j);
        RankFalls(cfg, name, refs[j]);
        LinkedIsPlain(refs[j]);
      }
      AllPlain(cfg, reg, name, 0);
      PlainCases(cfg, reg, name);
      var plans := PlainFrom(cfg, reg, name, 0).value;
      forall j | 0 <= j < |refs| ensures Unfolds(node.children[j], plans[j], created.Values) {
        assert PlainChild(cfg, reg, name, j) == Ok(plans[j-0]);
      }
      Assembles(node, Plan(node.what, plans), created.Values);
    }

    /** The names under a stored one are stored. */
    lemma {:induction false} StoredBelow(name: string, m: string)
      requires Acyclic(cfg, name) && Linked() && name in created && Under(cfg, name, m)
      ensures m in created
      decreases Rank(cfg, name)
    {
      if m != name {
        assert LinkedAt(name);
        var b := FirstStep(cfg, name, m);
        RankFalls(cfg, name, b);
        StoredBelow(b, m);
      }
    }

    method BuildChildren(name: string) returns (r: Result<seq<Node>>)
      requires Acyclic(cfg, name) && Linked() && Once(created, made)
      requires name in cfg.nodes && Clear(cfg, created, made, name)
      modifies this
      ensures Linked() && Once(created, made) && Extends(old(created), created)
      ensures Grows(cfg, name, true, old(created), old(made), created, made)
      ensures forall m :: m in created && m !in old(created) ==> fresh(created[m])
      ensures r.Ok? ==> Stored(old(made), created, made)
      ensures r.Ok? ==>
        var refs := Refs(cfg.nodes[name]);
        |r.value| == |refs| && (forall i :: 0 <= i < |refs| ==> refs[i] in created && r.value[i] == created[refs[i]])
      ensures r.Ok? ==> PlainFrom(cfg, reg, name, 0).Ok?
      ensures r.Err? ==> PlainFrom(cfg, reg, name, 0) == Err(r.error)
      decreases Rank(cfg, name), 0, 0
    {
      hide Refs, Acyclic, Rank, LabelOf, Refers, PlainFrom, Plain, Grows, Clear, Once, Linked;
      var refs := Refs(cfg.nodes[name]);
      var children, i := [], 0;
      GrowsNot(cfg, name, created, made);
      while i < |refs|
        invariant 0 <= i <= |refs| && |children| == i
        invariant Linked() && Once(created, made) && Extends(old(created), created)
        invariant Grows(cfg, name, true, old(created), old(made), created, made)
        invariant forall m :: m in created && m !in old(created) ==> fresh(created[m])
        invariant Stored(old(made), created, made)
        invariant forall j :: 0 <= j < i ==> refs[j] in created && children[j] == created[refs[j]]
        invariant forall j :: 0 <= j < i ==> PlainChild(cfg, reg, name, j).Ok?
      {
        ghost var created1, made1 := created, made;
        RefersAt(cfg, name, i);
        RankFalls(cfg, name, refs[i]);
        StaysClear(cfg, name, old(created), old(made), created, made);
        ClearBelow(cfg, created, made, name, refs[i]);
        var child := BuildNode(refs[i]);
        GrowsChains(cfg, name, refs[i], old(created), old(made), created1, made1, created, made);
        if child.Err? {
          FirstFailure(cfg, reg, name, 0, i);
          return Err(child.error);
        }
        children := children + [child.value];
        i := i + 1;
      }
      AllPlain(cfg, reg, name, 0);
      r := Ok(children);
    }

    method BuildNode(name: string) returns (r: Result<Node>)
      requires Acyclic(cfg, name) && Linked() && Once(created, made)
      requires Clear(cfg, created, made, name) && (name in made ==> name in created)
      modifies this
      ensures Linked() && Once(created, made) && Extends(old(created), created)
      ensures Grows(cfg, name, false, old(created), old(made), created, made)
      ensures forall m :: m in created && m !in old(created) ==> fresh(created[m])
      ensures r.Ok? ==> name in created && r.value == created[name]
      ensures r.Ok? ==> Stored(old(made), created, made)
      ensures r.Ok? ==> Plain(cfg, reg, name).Ok?
      ensures r.Err? ==> Plain(cfg, reg, name) == Err(r.error)
      decreases Rank(cfg, name), 1
    {
      hide Acyclic, Rank, Refers, Reaches, Clear, PlainFrom, Linked, Grows, LabelOf, Refs, GroupingOf, IsDecorator, IsAction, IsCondition, DecoratorName, Plain, Once;
      GrowsNot(cfg, name, created, made);
      LabelCases(cfg, reg, name);
      PlainCases(cfg, reg, name);
      if name in created {
        LinkedIsPlain(name);
        return Ok(created[name]);
      }
      if name !in cfg.nodes {
        return Err(UnknownNode(name));
      }
      var d := cfg.nodes[name];
      if GroupingOf(d).Some? {
        var node := new Node(Group(name, GroupingOf(d).value));
        r := Finish(name, node);
      } else if IsDecorator(d) {
        var part := Make(reg.decorator, DecoratorName(d), d.params);
        if part.Err? {
          return Err(part.error);
        }
        var node := new Node(Wrapper(part.value));
        if d.child == "" {
          GrowsBy(cfg, name, created, made);
          made := made + multiset{name};
          return Err(NeedsChild(name));
        }
        r := Finish(name, node);
      } else if IsAction(d) || IsCondition(d) {
        var part := if IsAction(d) then Make(reg.action, d.action, d.params) else Make(reg.condition, d.condition, d.params);
        if part.Err? {
          return Err(part.error);
        }
        var node := new Node(Leaf(part.value));
        r := Finish(name, node);
      } else {
        r := Err(UnsupportedType(d.kind));
      }
    }

    /** Gives a new node the children its declaration refers to and stores it. */
    method Finish(name: string, node: Node) returns (r: Result<Node>)
      requires Acyclic(cfg, name) && Linked() && Once(created, made) && Clear(cfg, created, made, name)
      requires name in cfg.nodes && name !in made && name !in created
      requires LabelOf(cfg, reg, name) == Ok(node.what) && node !in created.Values
      modifies this, node
      ensures Linked() && Once(created, made) && Extends(old(created), created)
      ensures Grows(cfg, name, false, old(created), old(made), created, made)
      ensures forall m :: m in created && m !in old(created) ==> created[m] == node || fresh(created[m])
      ensures r.Ok? ==> name in created && r.value == created[name]
      ensures r.Ok? ==> Stored(old(made), created, made)
      ensures r.Ok? ==> Plain(cfg, reg, name).Ok?
      ensures r.Err? ==> Plain(cfg, reg, name) == Err(r.error)
      decreases Rank(cfg, name), 0, 1
    {
      hide Refs, Acyclic, Rank, LabelOf, Refers, PlainFrom, Linked, Reaches, Grows, Plain, Clear, Once;
      PlainCases(cfg, reg, name);
      ClearOfItself(cfg, name, created, made);
      GrowsBy(cfg, name, created, made);
      ghost var made0 := made;
      made := made + multiset{name};
      var children := BuildChildren(name);
      GrowsOver(cfg, name, old(created), made0, created, made, node);
      if children.Err? {
        return Err(children.error);
      }
      label Built:
      node.SetChildren(children.value);
      StillLinked@Built(node);
      OnceMore(created, made, name, node);
      Store(name, node);
      r := Ok(node);
    }

    /** A node that is not stored yet may change. */
    twostate lemma StillLinked(node: Node)
      requires old(Linked()) && node !in created.Values && created == old(created)
      requires forall m :: m in created ==> created[m].children == old(created[m].children)
      ensures Linked()
    {
      hide Refs, LabelOf;
      forall n | n in created ensures LinkedAt(n) { assert old(LinkedAt(n)); }
    }

    method Store(name: string, node: Node)
      requires Linked() && name !in created && node !in created.Values
      requires name in cfg.nodes && LabelOf(cfg, reg, name) == Ok(node.what)
      requires var refs := Refs(cfg.nodes[name]);
        |node.children| == |refs| && (forall i :: 0 <= i < |refs| ==> refs[i] in created && node.children[i] == created[refs[i]])
      modifies this`created
      ensures created == old(created)[name := node] && Linked()
    {
      hide Refs, LabelOf;
      created := created[name := node];
      forall n | n in created ensures LinkedAt(n) {
        if n != name { assert old(LinkedAt(n)); }
      }
    }
  }

  lemma GrowsNot(cfg: Config, name: string, created: Table, made: multiset<string>)
    ensures forall strict :: Grows(cfg, name, strict, created, made, created, made)
  {
  }

  lemma OnceMore(created: Table, made: multiset<string>, name: string, node: Node)
    requires Once(created, made) && name in made
    ensures Once(created[name := node], made)
  {
  }

  lemma GrowsBy(cfg: Config, name: string, created: Table, made: multiset<string>)
    requires Once(created, made) && name !in made
    ensures Grows(cfg, name, false, created, made, created, made + multiset{name})
    ensures Once(created, made + multiset{name})
  {
  }

  /** What grew under `name` after it was made itself. */
  lemma GrowsOver(cfg: Config, name: string, c0: Table, m0: multiset<string>, c1: Table, m1: multiset<string>, node: Node)
    requires Grows(cfg, name, true, c0, m0 + multiset{name}, c1, m1)
    ensures Grows(cfg, name, false, c0, m0, c1, m1)
    ensures Grows(cfg, name, false, c0, m0, c1[name := node], m1)
    ensures name in m1 && (Acyclic(cfg, name) && name !in c0 ==> name !in c1)
  {
    hide Reaches;
  }

  lemma PlainCases(cfg: Config, reg: Registry, name: string)
    requires Acyclic(cfg, name)
    ensures LabelOf(cfg, reg, name).Err? ==> Plain(cfg, reg, name) == Err(LabelOf(cfg, reg, name).error)
    ensures LabelOf(cfg, reg, name).Ok? ==>
      name in cfg.nodes && Plain(cfg, reg, name).Ok? == PlainFrom(cfg, reg, name, 0).Ok? &&
      (PlainFrom(cfg, reg, name, 0).Err? ==> Plain(cfg, reg, name) == Err(PlainFrom(cfg, reg, name, 0).error)) &&
      (PlainFrom(cfg, reg, name, 0).Ok? ==>
         Plain(cfg, reg, name) == Ok(Plan(LabelOf(cfg, reg, name).value, PlainFrom(cfg, reg, name, 0).value)))
  {
  }

  lemma LabelCases(cfg: Config, reg: Registry, name: string)
    ensures name !in cfg.nodes ==> LabelOf(cfg, reg, name) == Err(UnknownNode(name))
    ensures name in cfg.nodes ==>
      var d, r := cfg.nodes[name], LabelOf(cfg, reg, name);
      if GroupingOf(d).Some? then r == Ok(Group(name, GroupingOf(d).value))
      else if IsDecorator(d) then
        var part := Make(reg.decorator, DecoratorName(d), d.params);
        r == if part.Err? then Err(part.error) else if d.child == "" then Err(NeedsChild(name)) else Ok(Wrapper(part.value))
      else if IsAction(d) || IsCondition(d) then
        var part := if IsAction(d) then Make(reg.action, d.action, d.params) else Make(reg.condition, d.condition, d.params);
        r == if part.Err? then Err(part.error) else Ok(Leaf(part.value))
      else r == Err(UnsupportedType(d.kind))
  {
    hide GroupingOf, IsDecorator, IsAction, IsCondition, DecoratorName;
  }

  lemma RefersAt(cfg: Config, a: string, i: nat)
    requires a in cfg.nodes && i < |Refs(cfg.nodes[a])|
    ensures Refers(cfg, a, Refs(cfg.nodes[a])[i])
  {
  }

  /** Being in the making, a name is not needed below itself. */
  lemma ClearOfItself(cfg: Config, name: string, created: Table, made: multiset<string>)
    requires Acyclic(cfg, name) && Clear(cfg, created, made, name)
    ensures Clear(cfg, created, made + multiset{name}, name)
  {
  }

  // ---------- What declarations mean, word by word ----------

  ghost predicate OverChildren(b: Builder, node: Node, names: seq<string>)
    reads b, node
  {
    |node.children| == |names| && forall i :: 0 <= i < |names| ==> names[i] in b.created && node.children[i] == b.created[names[i]]
  }

  /** The node stored for `n` is what the words of its declaration say. */
  ghost predicate AsDeclared(b: Builder, n: string)
    requires n in b.created
    reads b, b.created[n]
  {
    n in b.cfg.nodes &&
    var d, node := b.cfg.nodes[n], b.created[n];
    if d.kind in {"Sequence", "sequence"} then node.what == Group(n, InSequence) && OverChildren(b, node, d.children)
    else if d.kind in {"Selector", "selector"} then node.what == Group(n, InSelector) && OverChildren(b, node, d.children)
    else if d.kind in {"Parallel", "parallel"} then
      && node.what == Group(n, InParallel("policy" in d.params && d.params["policy"] in {Text("one"), Text("any")}))
      && OverChildren(b, node, d.children)
    else if d.kind in {"Random", "random"} then node.what == Group(n, AtRandom) && OverChildren(b, node, d.children)
    else if d.kind in {"Priority", "priority"} then node.what == Group(n, ByPriority) && OverChildren(b, node, d.children)
    else if d.kind in {"Decorator", "decorator"} then
      && node.what.Wrapper? && d.child != "" && OverChildren(b, node, [d.child])
      && (if "name" in d.params && d.params["name"].Text? then
            Make(b.reg.decorator, d.params["name"].s, d.params) == Ok(node.what.part)
          else Make(b.reg.decorator, "", d.params) == Ok(node.what.part))
    else if d.kind in {"Action", "action"} then
      node.what.Leaf? && node.children == [] && Make(b.reg.action, d.action, d.params) == Ok(node.what.part)
    else
      && d.kind in {"Condition", "condition"}
      && node.what.Leaf? && node.children == [] && Make(b.reg.condition, d.condition, d.params) == Ok(node.what.part)
  }

  /** What is wrong with the declaration of `n`, and the error that says so. */
  ghost predicate Faulty(cfg: Config, reg: Registry, n: string, e: Error) {
    if n !in cfg.nodes then e == UnknownNode(n)
    else
      var d := cfg.nodes[n];
      if d.kind in {"Sequence", "sequence", "Selector", "selector", "Parallel", "parallel", "Random", "random", "Priority", "priority"} then false
      else if d.kind in {"Decorator", "decorator"} then
        var made := Make(reg.decorator, if "name" in d.params && d.params["name"].Text? then d.params["name"].s else "", d.params);
        made == Err(e) || (made.Ok? && d.child == "" && e == NeedsChild(n))
      else if d.kind in {"Action", "action"} then Make(reg.action, d.action, d.params) == Err(e)
      else if d.kind in {"Condition", "condition"} then Make(reg.condition, d.condition, d.params) == Err(e)
      else e == UnsupportedType(d.kind)
  }

  /** Which names a declaration refers to. */
  lemma ReferencesMean(cfg: Config, a: string, b: string)
    ensures Refers(cfg, a, b) <==>
      a in cfg.nodes &&
      var d := cfg.nodes[a];
      if d.kind in {"Sequence", "sequence", "Selector", "selector", "Parallel", "parallel", "Random", "random", "Priority", "priority"} then
        b in d.children
      else d.kind in {"Decorator", "decorator"} && b == d.child && b != ""
  {
  }

  lemma FaultyIff(cfg: Config, reg: Registry, n: string, e: Error)
    ensures Faulty(cfg, reg, n, e) <==> LabelOf(cfg, reg, n) == Err(e)
  {
  }

  lemma LinkedAsDeclared(b: Builder, n: string)
    requires n in b.created && b.LinkedAt(n)
    ensures AsDeclared(b, n)
  {
  }

  /** What recursion reports is wrong with some declaration under the root. */
  lemma {:induction false} PlainErrorIsFault(cfg: Config, reg: Registry, name: string)
    requires Acyclic(cfg, name) && Plain(cfg, reg, name).Err?
    ensures exists n :: Under(cfg, name, n) && Faulty(cfg, reg, n, Plain(cfg, reg, name).error)
    decreases Rank(cfg, name)
  {
    hide LabelOf, Faulty, Refs, Rank, Acyclic;
    var e := Plain(cfg, reg, name).error;
    PlainCases(cfg, reg, name);
    if LabelOf(cfg, reg, name).Err? {
      FaultyIff(cfg, reg, name, e);
      assert Under(cfg, name, name);
    } else {
      var k := FailingChild(cfg, reg, name, 0);
      var child := Refs(cfg.nodes[name])[k];
      RefersAt(cfg, name, k);
      RankFalls(cfg, name, child);
      PlainErrorIsFault(cfg, reg, child);
      var n :| Under(cfg, child, n) && Faulty(cfg, reg, n, e);
      ReachStep(cfg, name, child, n);
      assert Under(cfg, name, n);
    }
  }

  lemma {:induction false} FailingChild(cfg: Config, reg: Registry, name: string, i: nat) returns (k: nat)
    requires Acyclic(cfg, name) && name in cfg.nodes && i <= |Refs(cfg.nodes[name])| && PlainFrom(cfg, reg, name, i).Err?
    ensures k < |Refs(cfg.nodes[name])| && PlainChild(cfg, reg, name, k) == Err(PlainFrom(cfg, reg, name, i).error)
    decreases |Refs(cfg.nodes[name])| - i
  {
    hide Refs, Acyclic, Plain, PlainChild, Rank, LabelOf;
    k := i;
    if PlainChild(cfg, reg, name, i).Ok? { k := FailingChild(cfg, reg, name, i + 1); }
  }

  // ---------- The whole build ----------

  /** The declared names a tree under `top` needs. */
  ghost function Needed(cfg: Config, top: string): set<string> {
    set m | m in cfg.nodes && Under(cfg, top, m)
  }

  ghost predicate InOrder(cfg: Config, reg: Registry, top: string) {
    forall m, e :: Under(cfg, top, m) ==> !Faulty(cfg, reg, m, e)
  }

  ghost predicate FirstSensorError(cfg: Config, reg: Registry, i: nat, e: Error) {
    && i < |cfg.sensors| && e.SensorFailed? && e.name == cfg.sensors[i].name
    && Make(reg.sensor, cfg.sensors[i].kind, cfg.sensors[i].params) == Err(e.cause)
    && forall j :: 0 <= j < i ==> Make(reg.sensor, cfg.sensors[j].kind, cfg.sensors[j].params).Ok?
  }

  /** A finished build made exactly the names it needed, each once. */
  lemma MadeIsNeeded(b: Builder, top: string)
    requires Acyclic(b.cfg, top) && b.Linked() && top in b.created && Once(b.created, b.made)
    requires Grows(b.cfg, top, false, map[], multiset{}, b.created, b.made)
    ensures b.made == multiset(Needed(b.cfg, top))
  {
    hide Reaches, LabelOf, Refs, Acyclic;
    var needed := multiset(Needed(b.cfg, top));
    forall m ensures b.made[m] == needed[m] {
      if Under(b.cfg, top, m) {
        b.StoredBelow(top, m);
        assert b.LinkedAt(m);
        assert m in Needed(b.cfg, top);
      } else {
        assert m !in b.made;
      }
    }
  }

  /** Makes the sensors in order, up to the first that fails. */
  method MakeSensors(cfg: Config, reg: Registry) returns (r: Result<seq<Part>>)
    ensures r.Ok? ==> |r.value| == |cfg.sensors| && forall i :: 0 <= i < |cfg.sensors| ==> Make(reg.sensor, cfg.sensors[i].kind, cfg.sensors[i].params) == Ok(r.value[i])
    ensures r.Err? ==> exists i :: FirstSensorError(cfg, reg, i, r.error)
  {
    var sensors, i := [], 0;
    while i < |cfg.sensors|
      invariant 0 <= i <= |cfg.sensors| && |sensors| == i
      invariant forall j :: 0 <= j < i ==> Make(reg.sensor, cfg.sensors[j].kind, cfg.sensors[j].params) == Ok(sensors[j])
    {
      var s := cfg.sensors[i];
      var made := Make(reg.sensor, s.kind, s.params);
      if made.Err? {
        assert FirstSensorError(cfg, reg, i, SensorFailed(s.name, made.error));
        return Err(SensorFailed(s.name, made.error));
      }
      sensors := sensors + [made.value];
      i := i + 1;
    }
    r := Ok(sensors);
  }

  /** Builds the tree and the sensors. Without a root it builds nothing. With one it succeeds exactly
      when every declaration under the root is in order and every sensor can be made; then the nodes
      spell out the plain tree, each needed name having been made once, and nothing else. Otherwise
      it reports what plain recursion reports, which is wrong with some declaration under the root, or
      else the first sensor that fails. */
  method Build(cfg: Config, reg: Registry) returns (r: Result<(Option<Node>, seq<Part>)>, ghost b: Builder)
    requires cfg.root != "" ==> Acyclic(cfg, cfg.root)
    ensures fresh(b) && b.cfg == cfg && b.reg == reg && b.Linked() && forall m :: b.made[m] <= 1
    ensures cfg.root == "" ==> r == Ok((None, [])) && b.made == multiset{}
    ensures cfg.root != "" ==>
      (r.Ok? <==> InOrder(cfg, reg, cfg.root) && forall i :: 0 <= i < |cfg.sensors| ==> Make(reg.sensor, cfg.sensors[i].kind, cfg.sensors[i].params).Ok?)
    ensures cfg.root != "" && r.Ok? ==>
      var p := Plain(cfg, reg, cfg.root);
      && cfg.root in b.created && r.value.0 == Some(b.created[cfg.root])
      && (forall n :: n in b.created ==> AsDeclared(b, n))
      && p.Ok? && Unfolds(r.value.0.value, p.value, b.created.Values)
      && b.made == multiset(Needed(cfg, cfg.root))
      && |r.value.1| == |cfg.sensors|
      && (forall i :: 0 <= i < |cfg.sensors| ==> Make(reg.sensor, cfg.sensors[i].kind, cfg.sensors[i].params) == Ok(r.value.1[i]))
    ensures cfg.root != "" && r.Err? ==>
      var p := Plain(cfg, reg, cfg.root);
      if p.Err? then r.error == p.error && exists n :: Under(cfg, cfg.root, n) && Faulty(cfg, reg, n, r.error)
      else exists i :: FirstSensorError(cfg, reg, i, r.error)
  {
    hide Acyclic, LabelOf, Plain, Under, Unfolds, InOrder, Grows, Needed, Faulty, AsDeclared, Builder.Linked;
    var builder := new Builder(cfg, reg);
    b := builder;
    EmptyBuilder(b, cfg.root);
    if cfg.root == "" {
      return Ok((None, [])), b;
    }
    var root := builder.BuildNode(cfg.root);
    PlainIsInOrder(cfg, reg, cfg.root);
    if root.Err? {
      PlainErrorIsFault(cfg, reg, cfg.root);
      return Err(root.error), b;
    }
    AllAsDeclared(builder);
    builder.LinkedIsPlain(cfg.root);
    MadeIsNeeded(builder, cfg.root);
    var sensors := MakeSensors(cfg, reg);
    if sensors.Err? {
      return Err(sensors.error), b;
    }
    r := Ok((Some(root.value), sensors.value));
  }

  lemma EmptyBuilder(b: Builder, top: string)
    requires b.created == map[] && b.made == multiset{}
    ensures b.Linked() && Once(b.created, b.made) && Clear(b.cfg, b.created, b.made, top)
  {
  }

  lemma PlainIsInOrder(cfg: Config, reg: Registry, top: string)
    requires Acyclic(cfg, top)
    ensures Plain(cfg, reg, top).Ok? <==> InOrder(cfg, reg, top)
  {
    hide Faulty, LabelOf;
    PlainSucceedsIff(cfg, reg, top);
    forall m, e ensures Faulty(cfg, reg, m, e) <==> LabelOf(cfg, reg, m) == Err(e) { FaultyIff(cfg, reg, m, e); }
    if m :| Under(cfg, top, m) && LabelOf(cfg, reg, m).Err? { assert Faulty(cfg, reg, m, LabelOf(cfg, reg, m).error); }
  }

  lemma AllAsDeclared(b: Builder)
    requires b.Linked()
    ensures forall n :: n in b.created ==> AsDeclared(b, n)
  {
    hide AsDeclared;
    forall n | n in b.created ensures AsDeclared(b, n) {
      assert b.LinkedAt(n);
      LinkedAsDeclared(b, n);
    }
  }
}
