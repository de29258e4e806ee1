/** The inclusion of types across module builders, packages/codegen/src/move-module-builder.ts, and the
    choice of emitted modules, packages/codegen/src/index.ts. */
module CodegenClosure {
  import opened Results
  import opened CodegenTypes
  import Sequences

  /** The summaries of all modules under their identifiers, and the address mapping. */
  datatype Program = Program(summaries: map<ModuleId, Summary>, mapping: AddressMapping)

  /** A type of a module. */
  datatype Node = Node(mod: ModuleId, name: string)

  // ---------- Declarations ----------

  function Find<T>(record: seq<(string, T)>, name: string): Option<T> {
    if record == [] then None else if record[0].0 == name then Some(record[0].1) else Find(record[1..], name)
  }

  function Names<T>(record: seq<(string, T)>): (r: seq<string>)
    ensures |r| == |record| && forall i :: 0 <= i < |r| ==> r[i] == record[i].0
  {
    seq(|record|, i requires 0 <= i < |record| => record[i].0)
  }

  predicate Declares(summary: Summary, name: string) {
    Find(summary.structs, name).Some? || Find(summary.enums, name).Some?
  }

  function RenderFields(mapping: AddressMapping, parameters: seq<Option<string>>, fields: seq<Type>): Report {
    if fields == [] then Report([], true)
    else Then(RenderType(mapping, parameters, fields[0]), RenderFields(mapping, parameters, fields[1..]))
  }

  function RenderVariants(mapping: AddressMapping, parameters: seq<Option<string>>, variants: seq<seq<Type>>): Report {
    if variants == [] then Report([], true)
    else Then(RenderFields(mapping, parameters, variants[0]), RenderVariants(mapping, parameters, variants[1..]))
  }

  /** Everything that the fields of a type report: those of the struct, then those of the enum. */
  function RenderDeclaration(mapping: AddressMapping, summary: Summary, name: string): Report {
    var struct_ := Find(summary.structs, name);
    var enum_ := Find(summary.enums, name);
    Then(
      if struct_.Some? then RenderFields(mapping, struct_.value.typeParameters, struct_.value.fields)
          else Report([], true),
      if enum_.Some? then RenderVariants(mapping, enum_.value.typeParameters, enum_.value.variants)
          else Report([], true))
  }

  // ---------- The graph of types ----------

  predicate Declared(program: Program, node: Node) {
    node.mod in program.summaries && Declares(program.summaries[node.mod], node.name)
  }

  /** The types that the fields of a type refer to. */
  function Targets(program: Program, node: Node): (r: seq<Node>)
    requires node.mod in program.summaries
  {
    var deps := RenderDeclaration(program.mapping, program.summaries[node.mod], node.name).dependencies;
    seq(|deps|, i requires 0 <= i < |deps| => Node(deps[i].mod, deps[i].name))
  }

  /** A type whose inclusion does not throw, apart from what its targets may do. */
  predicate Good(program: Program, node: Node) {
    && Declared(program, node)
    && RenderDeclaration(program.mapping, program.summaries[node.mod], node.name).ok
    && forall i :: 0 <= i < |Targets(program, node)| ==> Targets(program, node)[i].mod in program.summaries
  }

  ghost predicate Edge(program: Program, x: Node, y: Node) {
    x.mod in program.summaries && y in Targets(program, x)
  }

  ghost predicate Path(program: Program, path: seq<Node>) {
    path != [] && forall i :: 0 <= i < |path| - 1 ==> Edge(program, path[i], path[i + 1])
  }

  ghost predicate Reachable(program: Program, x: Node, y: Node) {
    exists path :: Path(program, path) && path[0] == x && path[|path| - 1] == y
  }

  lemma ReachableSelf(program: Program, x: Node)
    ensures Reachable(program, x, x)
  {
    assert Path(program, [x]);
  }

  lemma ReachableStep(program: Program, x: Node, y: Node, z: Node)
    requires Edge(program, x, y) && Reachable(program, y, z)
    ensures Reachable(program, x, z)
  {
    var path :| Path(program, path) && path[0] == y && path[|path| - 1] == z;
    var longer := [x] + path;
    forall i | 0 <= i < |longer| - 1
      ensures Edge(program, longer[i], longer[i + 1])
    {
      if i > 0 {
        assert Edge(program, path[i - 1], path[i - 1 + 1]);
      }
    }
    assert Path(program, longer);
  }

  /** A set that contains the targets of its members. */
  ghost predicate Closed(program: Program, s: set<Node>) {
    forall x, y :: x in s && Edge(program, x, y) ==> y in s
  }

  lemma {:induction false} ClosedContainsPath(program: Program, s: set<Node>, path: seq<Node>)
    requires Closed(program, s) && Path(program, path) && path[0] in s
    ensures path[|path| - 1] in s
    decreases |path|
  {
    if |path| > 1 {
      assert Edge(program, path[0], path[1]);
      assert Path(program, path[1..]) by {
        forall i | 0 <= i < |path[1..]| - 1
          ensures Edge(program, path[1..][i], path[1..][i + 1])
        {
          assert Edge(program, path[i + 1], path[i + 1 + 1]);
        }
      }
      ClosedContainsPath(program, s, path[1..]);
    }
  }

  lemma ClosedContainsReachable(program: Program, s: set<Node>, x: Node, y: Node)
    requires Closed(program, s) && x in s && Reachable(program, x, y)
    ensures y in s
  {
    var path :| Path(program, path) && path[0] == x && path[|path| - 1] == y;
    ClosedContainsPath(program, s, path);
  }

  /** What an inclusion that succeeds does to the included types, even one that starts while others
      are under way: it adds its type, and everything it adds is good, reachable from its type, and has
      its targets included. */
  ghost predicate Included(program: Program, before: set<Node>, after: set<Node>, root: Node) {
    && before <= after && root in after
    && forall x :: x in after && x !in before ==>
         Good(program, x) && Reachable(program, root, x) && forall y :: Edge(program, x, y) ==> y in after
  }

  /** All the declared types. */
  ghost function AllTypes(program: Program): set<Node> {
    set k, n | k in program.summaries && n in Names(program.summaries[k].structs) + Names(program.summaries[k].enums) ::
        Node(k, n)
  }

  lemma DeclaredIsAType(program: Program, x: Node)
    requires Declared(program, x)
    ensures x in AllTypes(program)
  {
    FoundIsNamed(program.summaries[x.mod].structs, x.name);
    FoundIsNamed(program.summaries[x.mod].enums, x.name);
  }

  lemma {:induction false} FoundIsNamed<T>(record: seq<(string, T)>, name: string)
    ensures Find(record, name).Some? <==> name in Names(record)
  {
    if record != [] {
      FoundIsNamed(record[1..], name);
      assert Names(record) == [record[0].0] + Names(record[1..]);
    }
  }

  /** The same while the targets of the type itself are being included. */
  ghost predicate UnderWay(program: Program, before: set<Node>, now: set<Node>, root: Node) {
    && before <= now && root in now
    && forall x :: x in now && x !in before && x != root ==>
         Good(program, x) && Reachable(program, root, x) && forall y :: Edge(program, x, y) ==> y in now
  }

  lemma OneMoreTarget(program: Program, before: set<Node>, now: set<Node>, after: set<Node>, root: Node, target: Node)
    requires UnderWay(program, before, now, root) && Edge(program, root, target)
        && Included(program, now, after, target)
    ensures UnderWay(program, before, after, root) && now <= after && target in after
  {
    forall x | x in after && x !in before && x != root
      ensures Good(program, x) && Reachable(program, root, x) && forall y :: Edge(program, x, y) ==> y in after
    {
      if x !in now {
        ReachableStep(program, root, target, x);
      }
    }
  }

  lemma AllTargetsIncluded(program: Program, before: set<Node>, now: set<Node>, root: Node)
    requires UnderWay(program, before, now, root) && Declared(program, root)
    requires RenderDeclaration(program.mapping, program.summaries[root.mod], root.name).ok
    requires forall i :: 0 <= i < |Targets(program, root)| ==>
               Targets(program, root)[i].mod in program.summaries && Targets(program, root)[i] in now
    ensures Included(program, before, now, root)
  {
    ReachableSelf(program, root);
  }

  /** Some type that is reachable cannot be included. */
  ghost predicate Blocked(program: Program, root: Node) {
    exists x :: Reachable(program, root, x) && !Good(program, x)
  }

  lemma BlockedAtRoot(program: Program, root: Node)
    requires !Good(program, root)
    ensures Blocked(program, root)
  {
    ReachableSelf(program, root);
  }

  lemma BlockedThroughTarget(program: Program, root: Node, target: Node)
    requires Edge(program, root, target) && Blocked(program, target)
    ensures Blocked(program, root)
  {
    var x :| Reachable(program, target, x) && !Good(program, x);
    ReachableStep(program, root, target, x);
  }

  // ---------- The builders ----------

  type Builders = map<ModuleId, MoveModuleBuilder>

  /** One builder for every summary, under the identifier that the summary gives. */
  ghost predicate WellFormed(program: Program, builders: Builders) {
    && builders.Keys == program.summaries.Keys
    && forall k :: k in builders ==>
         builders[k].summary == program.summaries[k] && builders[k].summary.id == k
             && builders[k].addressMappings == program.mapping
  }

  ghost function IncludedTypes(builders: Builders): set<Node>
    reads builders.Values
  {
    set k, n | k in builders && n in builders[k].includedTypes :: Node(k, n)
  }

  class MoveModuleBuilder {
    const summary: Summary
    const addressMappings: AddressMapping
    var includedTypes: set<string>

    constructor (summary: Summary, addressMappings: AddressMapping)
      ensures this.summary == summary && this.addressMappings == addressMappings && includedTypes == {}
    {
      this.summary, this.addressMappings := summary, addressMappings;
      includedTypes := {};
    }

    /** includeType; false stands for an exception. */
    method IncludeType(name: string, moduleBuilders: Builders, ghost program: Program) returns (ok: bool)
      requires WellFormed(program, moduleBuilders)
      requires summary.id in moduleBuilders && moduleBuilders[summary.id] == this
      modifies moduleBuilders.Values`includedTypes
      ensures old(IncludedTypes(moduleBuilders)) <= IncludedTypes(moduleBuilders)
      ensures ok ==> Included(program, old(IncludedTypes(moduleBuilders)), IncludedTypes(moduleBuilders),
          Node(summary.id, name))
      ensures !ok ==> Blocked(program, Node(summary.id, name))
      decreases |AllTypes(program) - IncludedTypes(moduleBuilders)|, 0
    {
      hide Declares, Included, Blocked, UnderWay;
      ghost var before := IncludedTypes(moduleBuilders);
      ghost var root := Node(summary.id, name);
      if name in includedTypes {
        AlreadyIncluded(program, before, root);
        return true;
      }
      includedTypes := includedTypes + {name};
      assert IncludedTypes(moduleBuilders) == before + {root};
      if !Declares(summary, name) {
        BlockedAtRoot(program, root);
        return false;
      }
      DeclaredIsAType(program, root);
      Shrinks(AllTypes(program), before, root);
      ok := IncludeTargets(name, moduleBuilders, program, before);
    }

    /** What follows the check that the type exists: every reported dependency is included. */
    method IncludeTargets(name: string, moduleBuilders: Builders, ghost program: Program, ghost before: set<Node>)
      returns (ok: bool)
      requires WellFormed(program, moduleBuilders)
      requires summary.id in moduleBuilders && moduleBuilders[summary.id] == this && Declares(summary, name)
      requires IncludedTypes(moduleBuilders) == before + {Node(summary.id, name)}
      modifies moduleBuilders.Values`includedTypes
      ensures old(IncludedTypes(moduleBuilders)) <= IncludedTypes(moduleBuilders)
      ensures ok ==> Included(program, before, IncludedTypes(moduleBuilders), Node(summary.id, name))
      ensures !ok ==> Blocked(program, Node(summary.id, name))
      decreases |AllTypes(program) - IncludedTypes(moduleBuilders)|, 1
    {
      hide Declares, Included, Blocked, UnderWay, RenderDeclaration, Good, IncludedTypes, AllTypes;
      ghost var root := Node(summary.id, name);
      ghost var targets := Targets(program, root);
      ghost var start := IncludedTypes(moduleBuilders);
      var report := RenderDeclaration(addressMappings, summary, name);
      var i := 0;
      NoTargetYet(program, before, root);
      while i < |report.dependencies|
        invariant 0 <= i <= |report.dependencies| == |targets|
        invariant start <= IncludedTypes(moduleBuilders)
        invariant UnderWay(program, before, IncludedTypes(moduleBuilders), root)
        invariant forall j :: 0 <= j < i ==>
                    targets[j].mod in program.summaries && targets[j] in IncludedTypes(moduleBuilders)
      {
        var dependency := report.dependencies[i];
        if dependency.mod !in moduleBuilders {
          MissingBuilder(program, root, i);
          return false;
        }
        ghost var now := IncludedTypes(moduleBuilders);
        Larger(AllTypes(program), start, now);
        ok := moduleBuilders[dependency.mod].IncludeType(dependency.name, moduleBuilders, program);
        if !ok {
          BlockedThroughTarget(program, root, targets[i]);
          return false;
        }
        OneMoreTarget(program, before, now, IncludedTypes(moduleBuilders), root, targets[i]);
        i := i + 1;
      }
      if !report.ok {
        RenderingThrows(program, root);
        return false;
      }
      AllTargetsIncluded(program, before, IncludedTypes(moduleBuilders), root);
      return true;
    }

    /** includeAllTypes: every struct and then every enum. */
    method IncludeAllTypes(moduleBuilders: Builders, ghost program: Program) returns (ok: bool)
      requires WellFormed(program, moduleBuilders)
      requires summary.id in moduleBuilders && moduleBuilders[summary.id] == this
      modifies moduleBuilders.Values`includedTypes
      ensures ok ==> IncludedAll(program, old(IncludedTypes(moduleBuilders)), IncludedTypes(moduleBuilders),
          TypesOf(summary))
      ensures !ok ==> BlockedAmong(program, TypesOf(summary))
    {
      hide IncludedAll, BlockedAmong, IncludedTypes;
      ok := IncludeNames(Names(summary.structs), moduleBuilders, program);
      if !ok {
        BlockedInLarger(program, Nodes(summary.id, Names(summary.structs)), TypesOf(summary));
        return;
      }
      ghost var before, middle := old(IncludedTypes(moduleBuilders)), IncludedTypes(moduleBuilders);
      ok := IncludeNames(Names(summary.enums), moduleBuilders, program);
      if !ok {
        BlockedInLarger(program, Nodes(summary.id, Names(summary.enums)), TypesOf(summary));
        return;
      }
      IncludedBoth(program, before, middle, IncludedTypes(moduleBuilders),
                   Nodes(summary.id, Names(summary.structs)), Nodes(summary.id, Names(summary.enums)));
    }

    method IncludeNames(names: seq<string>, moduleBuilders: Builders, ghost program: Program) returns (ok: bool)
      requires WellFormed(program, moduleBuilders)
      requires summary.id in moduleBuilders && moduleBuilders[summary.id] == this
      modifies moduleBuilders.Values`includedTypes
      ensures ok ==> IncludedAll(program, old(IncludedTypes(moduleBuilders)), IncludedTypes(moduleBuilders),
          Nodes(summary.id, names))
      ensures !ok ==> BlockedAmong(program, Nodes(summary.id, names))
    {
      hide IncludedTypes, Included, IncludedAll, Blocked, BlockedAmong;
      ghost var before := IncludedTypes(moduleBuilders);
      ok := true;
      NothingIncluded(program, before);
      var i := 0;
      while i < |names|
        invariant 0 <= i <= |names|
        invariant IncludedAll(program, before, IncludedTypes(moduleBuilders), Nodes(summary.id, names[..i]))
      {
        ghost var middle := IncludedTypes(moduleBuilders);
        ghost var root := Node(summary.id, names[i]);
        ok := IncludeType(names[i], moduleBuilders, program);
        if !ok {
          BlockedOne(program, root, Nodes(summary.id, names));
          return;
        }
        IncludedOne(program, middle, IncludedTypes(moduleBuilders), root);
        IncludedBoth(program, before, middle, IncludedTypes(moduleBuilders), Nodes(summary.id, names[..i]), {root});
        assert Nodes(summary.id, names[..i + 1]) == Nodes(summary.id, names[..i]) + {root} by {
          assert names[..i + 1] == names[..i] + [names[i]];
          NodesOfConcat(summary.id, names[..i], names[i]);
        }
        i := i + 1;
      }
      assert names[..i] == names;
    }

    predicate HasBcsTypes()
      reads this
    {
      |includedTypes| > 0
    }

    predicate HasFunctions() {
      exists i :: 0 <= i < |summary.functions| && summary.functions[i].isPublic && !summary.functions[i].isMacro
    }
  }

  lemma AlreadyIncluded(program: Program, before: set<Node>, root: Node)
    requires root in before
    ensures Included(program, before, before, root)
  {
  }

  lemma NoTargetYet(program: Program, before: set<Node>, root: Node)
    ensures UnderWay(program, before, before + {root}, root)
  {
  }

  lemma MissingBuilder(program: Program, root: Node, i: nat)
    requires root.mod in program.summaries && i < |Targets(program, root)|
        && Targets(program, root)[i].mod !in program.summaries
    ensures Blocked(program, root)
  {
    BlockedAtRoot(program, root);
  }

  lemma RenderingThrows(program: Program, root: Node)
    requires root.mod in program.summaries && !RenderDeclaration(program.mapping, program.summaries[root.mod],
        root.name).ok
    ensures Blocked(program, root)
  {
    BlockedAtRoot(program, root);
  }

  lemma Shrinks(all: set<Node>, before: set<Node>, root: Node)
    requires root in all && root !in before
    ensures |all - (before + {root})| < |all - before|
  {
    assert all - (before + {root}) == (all - before) - {root};
  }

  lemma Larger(all: set<Node>, before: set<Node>, now: set<Node>)
    requires before <= now
    ensures |all - now| <= |all - before|
  {
    Sequences.SubsetIsSmaller(all - now, all - before);
  }

  // ---------- Several roots ----------

  ghost function Nodes(mod: ModuleId, names: seq<string>): set<Node> {
    set i | 0 <= i < |names| :: Node(mod, names[i])
  }

  ghost function TypesOf(summary: Summary): set<Node> {
    Nodes(summary.id, Names(summary.structs)) + Nodes(summary.id, Names(summary.enums))
  }

  lemma NodesOfConcat(mod: ModuleId, names: seq<string>, name: string)
    ensures Nodes(mod, names + [name]) == Nodes(mod, names) + {Node(mod, name)}
  {
    var more := names + [name];
    assert more[|names|] == name;
    forall x | x in Nodes(mod, names)
      ensures x in Nodes(mod, more)
    {
      var i :| 0 <= i < |names| && x == Node(mod, names[i]);
      assert more[i] == names[i];
    }
    assert Node(mod, name) in Nodes(mod, more);
    forall x | x in Nodes(mod, more)
      ensures x in Nodes(mod, names) + {Node(mod, name)}
    {
      var i :| 0 <= i < |more| && x == Node(mod, more[i]);
      assert i < |names| ==> more[i] == names[i];
    }
  }

  ghost predicate ReachableFrom(program: Program, roots: set<Node>, x: Node) {
    exists r :: r in roots && Reachable(program, r, x)
  }

  ghost predicate BlockedAmong(program: Program, roots: set<Node>) {
    exists r :: r in roots && Blocked(program, r)
  }

  /** What the inclusion of several roots does. */
  ghost predicate IncludedAll(program: Program, before: set<Node>, after: set<Node>, roots: set<Node>) {
    && before <= after && roots <= after
    && forall x :: x in after && x !in before ==>
         Good(program, x) && ReachableFrom(program, roots, x) && forall y :: Edge(program, x, y) ==> y in after
  }

  lemma NothingIncluded(program: Program, before: set<Node>)
    ensures IncludedAll(program, before, before, {})
    ensures forall mod, names: seq<string> :: IncludedAll(program, before, before, Nodes(mod, names[..0]))
  {
    forall mod, names: seq<string>
      ensures IncludedAll(program, before, before, Nodes(mod, names[..0]))
    {
      assert Nodes(mod, names[..0]) == {};
    }
  }

  lemma IncludedOne(program: Program, before: set<Node>, after: set<Node>, root: Node)
    requires Included(program, before, after, root)
    ensures IncludedAll(program, before, after, {root})
  {
    forall x | x in after && x !in before
      ensures ReachableFrom(program, {root}, x)
    {
      assert root in {root} && Reachable(program, root, x);
    }
  }

  lemma IncludedBoth(program: Program, a: set<Node>, b: set<Node>, c: set<Node>, first: set<Node>, second: set<Node>)
    requires IncludedAll(program, a, b, first) && IncludedAll(program, b, c, second)
    ensures IncludedAll(program, a, c, first + second)
  {
    forall x | x in c && x !in a
      ensures Good(program, x) && ReachableFrom(program, first + second, x) && forall y :: Edge(program, x, y) ==>
          y in c
    {
      var roots := if x in b then first else second;
      assert ReachableFrom(program, roots, x);
      var r :| r in roots && Reachable(program, r, x);
      assert r in first + second;
    }
  }

  lemma BlockedOne(program: Program, root: Node, roots: set<Node>)
    requires Blocked(program, root) && root in roots
    ensures BlockedAmong(program, roots)
  {
  }

  lemma BlockedInLarger(program: Program, some: set<Node>, roots: set<Node>)
    requires BlockedAmong(program, some) && some <= roots
    ensures BlockedAmong(program, roots)
  {
  }

  /** From nothing, the types that are included are exactly the reachable ones, and all of them are good. */
  lemma IncludedIsReachable(program: Program, after: set<Node>, roots: set<Node>)
    requires IncludedAll(program, {}, after, roots)
    ensures Closed(program, after)
    ensures forall x :: x in after <==> ReachableFrom(program, roots, x)
    ensures forall x :: ReachableFrom(program, roots, x) ==> Good(program, x)
  {
    hide Good, Edge, Reachable;
    assert Closed(program, after);
    hide Closed;
    forall x | ReachableFrom(program, roots, x)
      ensures x in after
    {
      var r :| r in roots && Reachable(program, r, x);
      ClosedContainsReachable(program, after, r, x);
    }
  }

  // ---------- generateFromPackageSummary ----------

  /** The modules whose types are all included: those of the main package, or all without pruning. */
  predicate IsRootModule(main: string, prune: bool, mod: ModuleId) {
    mod.address == main || !prune
  }

  /** The types that are declared in the modules of the main package if there is pruning, and in all
      modules if there is none. */
  ghost function Roots(program: Program, main: string, prune: bool, modules: seq<ModuleId>): set<Node>
    requires forall i :: 0 <= i < |modules| ==> modules[i] in program.summaries
  {
    set i, x | 0 <= i < |modules| && (prune ==> modules[i].address == main)
        && x in TypesOf(program.summaries[modules[i]]) :: x
  }

  datatype Choice = Choice(ok: bool, emitted: set<ModuleId>)

  /** Whether a module is written: some type of it is included, or it has a public function that is no
      macro and is not pruned. */
  ghost predicate Emits(main: string, prune: bool, summary: Summary, included: set<string>) {
    || included != {}
    || ((prune ==> summary.id.address == main)
        && exists i :: 0 <= i < |summary.functions| && summary.functions[i].isPublic && !summary.functions[i].isMacro)
  }

  lemma EmitsIs(main: string, prune: bool, builder: MoveModuleBuilder, included: set<string>)
    ensures Emits(main, prune, builder.summary, included) <==>
        included != {} || (IsRootModule(main, prune, builder.summary.id) && builder.HasFunctions())
  {
  }

  /** The two passes over the modules: first all inclusions, then the choice of the modules that are
      written. The included types are exactly those reachable from the root modules' types, and it
      fails exactly if one of those cannot be included. */
  method Generate(modules: seq<ModuleId>, main: string, prune: bool, moduleBuilders: Builders, ghost program: Program)
    returns (ok: bool, emitted: set<ModuleId>)
    requires WellFormed(program, moduleBuilders)
    requires forall k :: k in modules <==> k in moduleBuilders
    requires forall k :: k in moduleBuilders ==> moduleBuilders[k].includedTypes == {}
    modifies moduleBuilders.Values`includedTypes
    ensures ok <==> forall x :: ReachableFrom(program, Roots(program, main, prune, modules), x) ==> Good(program, x)
    ensures ok ==> forall x :: x in IncludedTypes(moduleBuilders) <==>
        ReachableFrom(program, Roots(program, main, prune, modules), x)
    ensures ok ==> Closed(program, IncludedTypes(moduleBuilders))
    ensures ok ==> forall x :: x in IncludedTypes(moduleBuilders) ==> x.mod in emitted
    ensures ok ==> forall k :: k in emitted <==>
              && k in moduleBuilders
              && Emits(main, prune, program.summaries[k], moduleBuilders[k].includedTypes)
  {
    emitted := {};
    ok := IncludeRoots(modules, main, prune, moduleBuilders, program);
    ghost var roots := Roots(program, main, prune, modules);
    if !ok {
      BlockedIsReachable(program, roots);
      return;
    }
    IncludedIsReachable(program, IncludedTypes(moduleBuilders), roots);
    emitted := ChooseModules(modules, main, prune, moduleBuilders, program);
    hide ReachableFrom, Good, Closed, Roots, IncludedTypes, IncludedAll, BlockedAmong, TypesOf, AllTypes;
    IncludedModules(moduleBuilders);
  }

  /** The second pass. */
  method ChooseModules(modules: seq<ModuleId>, main: string, prune: bool, moduleBuilders: Builders,
                       ghost program: Program)
    returns (emitted: set<ModuleId>)
    requires WellFormed(program, moduleBuilders) && forall k :: k in modules ==> k in moduleBuilders
    ensures forall k :: k in emitted <==>
              k in modules && Emits(main, prune, program.summaries[k], moduleBuilders[k].includedTypes)
  {
    hide Emits;
    emitted := {};
    var i := 0;
    while i < |modules|
      invariant 0 <= i <= |modules|
      invariant forall k :: k in emitted <==>
                  k in modules[..i] && Emits(main, prune, program.summaries[k], moduleBuilders[k].includedTypes)
    {
      var mod := modules[i];
      var builder := moduleBuilders[mod];
      assert modules[..i + 1] == modules[..i] + [mod];
      EmitsIs(main, prune, builder, builder.includedTypes);
      if IsRootModule(main, prune, mod) && (builder.HasBcsTypes() || builder.HasFunctions()) {
        emitted := emitted + {mod};
      } else if mod.address != main && builder.HasBcsTypes() {
        emitted := emitted + {mod};
      }
      i := i + 1;
    }
    assert modules[..i] == modules;
  }

  lemma IncludedModules(builders: Builders)
    ensures forall x :: x in IncludedTypes(builders) ==> x.mod in builders && builders[x.mod].includedTypes != {}
  {
  }

  /** Includes all types of one module, after those of others. */
  method IncludeRoot(mod: ModuleId, moduleBuilders: Builders, ghost program: Program, ghost before: set<Node>)
    returns (ok: bool)
    requires WellFormed(program, moduleBuilders) && mod in moduleBuilders && mod in program.summaries
    requires IncludedAll(program, {}, IncludedTypes(moduleBuilders), before)
    modifies moduleBuilders.Values`includedTypes
    ensures ok ==>
              IncludedAll(program, {}, IncludedTypes(moduleBuilders), before + TypesOf(program.summaries[mod]))
    ensures !ok ==> BlockedAmong(program, TypesOf(program.summaries[mod]))
  {
    hide IncludedTypes, IncludedAll, BlockedAmong, TypesOf, Good, Edge, ReachableFrom;
    var builder := moduleBuilders[mod];
    BuilderOf(program, moduleBuilders, mod);
    ghost var middle := IncludedTypes(moduleBuilders);
    ok := builder.IncludeAllTypes(moduleBuilders, program);
    if ok {
      IncludedBoth(program, {}, middle, IncludedTypes(moduleBuilders), before, TypesOf(builder.summary));
    }
  }

  lemma NothingBefore(modules: seq<ModuleId>, main: string, prune: bool, builders: Builders, program: Program)
    requires WellFormed(program, builders) && forall k :: k in modules ==> k in builders
    requires forall k :: k in builders ==> builders[k].includedTypes == {}
    ensures forall k :: k in modules ==> k in program.summaries
    ensures IncludedAll(program, {}, IncludedTypes(builders), Roots(program, main, prune, modules[..0]))
  {
    assert IncludedTypes(builders) == {};
    hide IncludedAll, IncludedTypes, TypesOf;
    NothingIncluded(program, {});
    assert Roots(program, main, prune, modules[..0]) == {};
  }

  method IncludeRoots(modules: seq<ModuleId>, main: string, prune: bool, moduleBuilders: Builders,
                      ghost program: Program)
    returns (ok: bool)
    requires WellFormed(program, moduleBuilders)
    requires forall k :: k in modules ==> k in moduleBuilders
    requires forall k :: k in moduleBuilders ==> moduleBuilders[k].includedTypes == {}
    modifies moduleBuilders.Values`includedTypes
    ensures ok ==> IncludedAll(program, {}, IncludedTypes(moduleBuilders), Roots(program, main, prune, modules))
    ensures !ok ==> BlockedAmong(program, Roots(program, main, prune, modules))
  {
    hide *;
    NothingBefore(modules, main, prune, moduleBuilders, program);
    ok := true;
    for i := 0 to |modules|
      invariant WellFormed(program, moduleBuilders)
      invariant IncludedAll(program, {}, IncludedTypes(moduleBuilders), Roots(program, main, prune, modules[..i]))
    {
      RootsOfPrefix(program, main, prune, modules, i);
      assert Roots(program, main, prune, modules[..i]) + {} == Roots(program, main, prune, modules[..i]);
      if IsRootModule(main, prune, modules[i]) {
        ok := IncludeRoot(modules[i], moduleBuilders, program, Roots(program, main, prune, modules[..i]));
        if !ok {
          BlockedInLarger(program, TypesOf(program.summaries[modules[i]]), Roots(program, main, prune, modules));
          return;
        }
      }
    }
    assert modules[..|modules|] == modules;
  }

  lemma BuilderOf(program: Program, builders: Builders, k: ModuleId)
    requires WellFormed(program, builders) && k in builders
    ensures k in program.summaries && builders[k].summary == program.summaries[k] && builders[k].summary.id == k
  {
  }

  lemma RootsOfPrefix(program: Program, main: string, prune: bool, modules: seq<ModuleId>, i: nat)
    requires i < |modules| && forall k :: k in modules ==> k in program.summaries
    ensures Roots(program, main, prune, modules[..i + 1])
         == Roots(program, main, prune, modules[..i])
            + if IsRootModule(main, prune, modules[i]) then TypesOf(program.summaries[modules[i]]) else {}
    ensures Roots(program, main, prune, modules[..i + 1]) <= Roots(program, main, prune, modules)
  {
    hide TypesOf;
    var shorter, longer := modules[..i], modules[..i + 1];
    assert longer[i] == modules[i];
    forall x
      ensures x in Roots(program, main, prune, longer)
         <==> || x in Roots(program, main, prune, shorter)
              || (IsRootModule(main, prune, modules[i]) && x in TypesOf(program.summaries[modules[i]]))
    {
      if j :| 0 <= j < |longer| && IsRootModule(main, prune, longer[j]) && x in TypesOf(program.summaries[longer[j]]) {
        assert j < i ==> shorter[j] == longer[j];
      }
      if j :| && 0 <= j < |shorter| && IsRootModule(main, prune, shorter[j])
              && x in TypesOf(program.summaries[shorter[j]])
      {
        assert longer[j] == shorter[j];
      }
    }
    forall x | x in Roots(program, main, prune, longer)
      ensures x in Roots(program, main, prune, modules)
    {
      var j :| 0 <= j < |longer| && IsRootModule(main, prune, longer[j]) && x in TypesOf(program.summaries[longer[j]]);
      assert modules[j] == longer[j];
    }
  }

  lemma BlockedIsReachable(program: Program, roots: set<Node>)
    requires BlockedAmong(program, roots)
    ensures exists x :: ReachableFrom(program, roots, x) && !Good(program, x)
  {
    var r :| r in roots && Blocked(program, r);
    var x :| Reachable(program, r, x) && !Good(program, x);
    assert ReachableFrom(program, roots, x);
  }

  // ---------- What the emitted code refers to ----------

  ghost predicate FieldsReferTo(mapping: AddressMapping, fields: seq<Type>, d: Dependency) {
    exists i :: 0 <= i < |fields| && RefersTo(mapping, fields[i], d)
  }

  /** Whether the emitted code of a type names a datatype: some field of the struct, or of a variant of
      the enum, does. */
  ghost predicate DeclarationRefersTo(mapping: AddressMapping, summary: Summary, name: string, d: Dependency) {
    || (Find(summary.structs, name).Some? && FieldsReferTo(mapping, Find(summary.structs, name).value.fields, d))
    || (Find(summary.enums, name).Some?
        && exists v :: 0 <= v < |Find(summary.enums, name).value.variants|
            && FieldsReferTo(mapping, Find(summary.enums, name).value.variants[v], d))
  }

  lemma {:induction false} FieldsReportReferences(mapping: AddressMapping, parameters: seq<Option<string>>,
                                                  fields: seq<Type>, d: Dependency)
    requires RenderFields(mapping, parameters, fields).ok
    ensures d in RenderFields(mapping, parameters, fields).dependencies <==> FieldsReferTo(mapping, fields, d)
  {
    hide RenderType, RefersTo;
    if fields != [] {
      RenderReportsReferences(mapping, parameters, fields[0], d);
      FieldsReportReferences(mapping, parameters, fields[1..], d);
      assert forall i :: 0 < i < |fields| ==> fields[i] == fields[1..][i - 1];
      if FieldsReferTo(mapping, fields[1..], d) {
        var i :| 0 <= i < |fields[1..]| && RefersTo(mapping, fields[1..][i], d);
        assert RefersTo(mapping, fields[i + 1], d);
      }
    }
  }

  lemma {:induction false} VariantsReportReferences(mapping: AddressMapping, parameters: seq<Option<string>>,
                                                    variants: seq<seq<Type>>, d: Dependency)
    requires RenderVariants(mapping, parameters, variants).ok
    ensures d in RenderVariants(mapping, parameters, variants).dependencies
       <==> exists v :: 0 <= v < |variants| && FieldsReferTo(mapping, variants[v], d)
  {
    hide RenderFields, FieldsReferTo;
    if variants != [] {
      FieldsReportReferences(mapping, parameters, variants[0], d);
      VariantsReportReferences(mapping, parameters, variants[1..], d);
      assert forall v :: 0 < v < |variants| ==> variants[v] == variants[1..][v - 1];
      if v :| 0 <= v < |variants[1..]| && FieldsReferTo(mapping, variants[1..][v], d) {
        assert FieldsReferTo(mapping, variants[v + 1], d);
      }
    }
  }

  /** Every datatype that the emitted code of an included type names is included, in a module that is
      written. */
  lemma ReferencesAreEmitted(program: Program, included: set<Node>, emitted: set<ModuleId>, node: Node, d: Dependency)
    requires Closed(program, included) && node in included && Good(program, node)
    requires forall x :: x in included ==> x.mod in emitted
    requires DeclarationRefersTo(program.mapping, program.summaries[node.mod], node.name, d)
    ensures Node(d.mod, d.name) in included && d.mod in emitted
  {
    var summary := program.summaries[node.mod];
    DeclarationReports(program.mapping, summary, node.name, d);
    var deps := RenderDeclaration(program.mapping, summary, node.name).dependencies;
    var i :| 0 <= i < |deps| && deps[i] == d;
    assert Targets(program, node)[i] == Node(d.mod, d.name);
    assert Edge(program, node, Node(d.mod, d.name));
  }

  lemma DeclarationReports(mapping: AddressMapping, summary: Summary, name: string, d: Dependency)
    requires RenderDeclaration(mapping, summary, name).ok
    ensures d in RenderDeclaration(mapping, summary, name).dependencies <==>
        DeclarationRefersTo(mapping, summary, name, d)
  {
    hide RenderFields, RenderVariants, FieldsReferTo;
    var struct_, enum_ := Find(summary.structs, name), Find(summary.enums, name);
    if struct_.Some? {
      FieldsReportReferences(mapping, struct_.value.typeParameters, struct_.value.fields, d);
    }
    if enum_.Some? {
      VariantsReportReferences(mapping, enum_.value.typeParameters, enum_.value.variants, d);
    }
  }

  // ---------- Which types can be emitted ----------

  ghost predicate FieldsRender(mapping: AddressMapping, parameters: seq<Option<string>>, fields: seq<Type>) {
    forall i :: 0 <= i < |fields| ==> Renders(mapping, parameters, fields[i])
  }

  lemma {:induction false} FieldsSucceedExactly(mapping: AddressMapping, parameters: seq<Option<string>>,
                                                fields: seq<Type>)
    ensures RenderFields(mapping, parameters, fields).ok <==> FieldsRender(mapping, parameters, fields)
  {
    hide RenderType, Renders;
    if fields != [] {
      RenderSucceedsExactly(mapping, parameters, fields[0]);
      FieldsSucceedExactly(mapping, parameters, fields[1..]);
      assert forall i :: 0 <= i < |fields| - 1 ==> fields[1..][i] == fields[i + 1];
      assert forall i :: 1 <= i < |fields| ==> fields[i] == fields[1..][i - 1];
    }
  }

  lemma {:induction false} VariantsSucceedExactly(mapping: AddressMapping, parameters: seq<Option<string>>,
                                                  variants: seq<seq<Type>>)
    ensures RenderVariants(mapping, parameters, variants).ok <==>
        forall v :: 0 <= v < |variants| ==> FieldsRender(mapping, parameters, variants[v])
  {
    hide RenderFields, FieldsRender;
    if variants != [] {
      FieldsSucceedExactly(mapping, parameters, variants[0]);
      VariantsSucceedExactly(mapping, parameters, variants[1..]);
      assert forall v :: 0 <= v < |variants| - 1 ==> variants[1..][v] == variants[v + 1];
      assert forall v :: 1 <= v < |variants| ==> variants[v] == variants[1..][v - 1];
    }
  }

  ghost predicate DeclarationRenders(mapping: AddressMapping, summary: Summary, name: string) {
    var (struct_, enum_) := (Find(summary.structs, name), Find(summary.enums, name));
    && (struct_.Some? ==> FieldsRender(mapping, struct_.value.typeParameters, struct_.value.fields))
    && (enum_.Some? ==> forall v :: 0 <= v < |enum_.value.variants| ==>
          FieldsRender(mapping, enum_.value.typeParameters, enum_.value.variants[v]))
  }

  /** A type can be emitted exactly if its module declares it under that name, all its fields can be
      rendered, and there is a summary of the module of every datatype that its code names. */
  lemma GoodExactly(program: Program, node: Node)
    ensures Good(program, node) <==>
              && node.mod in program.summaries
              && (node.name in Names(program.summaries[node.mod].structs)
                  || node.name in Names(program.summaries[node.mod].enums))
              && DeclarationRenders(program.mapping, program.summaries[node.mod], node.name)
              && forall d :: DeclarationRefersTo(program.mapping, program.summaries[node.mod], node.name, d) ==>
                   d.mod in program.summaries
  {
    if node.mod in program.summaries {
      var (mapping, summary, name) := (program.mapping, program.summaries[node.mod], node.name);
      FoundIsNamed(summary.structs, name);
      FoundIsNamed(summary.enums, name);
      var (struct_, enum_) := (Find(summary.structs, name), Find(summary.enums, name));
      if struct_.Some? {
        FieldsSucceedExactly(mapping, struct_.value.typeParameters, struct_.value.fields);
      }
      if enum_.Some? {
        VariantsSucceedExactly(mapping, enum_.value.typeParameters, enum_.value.variants);
      }
      hide RenderFields, RenderVariants, FieldsRender, Names, Find;
      if RenderDeclaration(mapping, summary, name).ok {
        TargetsAreReferences(program, node);
      }
    }
  }

  lemma TargetsAreReferences(program: Program, node: Node)
    requires node.mod in program.summaries
    requires RenderDeclaration(program.mapping, program.summaries[node.mod], node.name).ok
    ensures (forall i :: 0 <= i < |Targets(program, node)| ==> Targets(program, node)[i].mod in program.summaries) <==>
            forall d :: DeclarationRefersTo(program.mapping, program.summaries[node.mod], node.name, d) ==>
              d.mod in program.summaries
  {
    var (mapping, summary) := (program.mapping, program.summaries[node.mod]);
    var deps := RenderDeclaration(mapping, summary, node.name).dependencies;
    hide RenderDeclaration, DeclarationRefersTo;
    forall d ensures d in deps <==> DeclarationRefersTo(mapping, summary, node.name, d) {
      DeclarationReports(mapping, summary, node.name, d);
    }
    assert forall i :: 0 <= i < |deps| ==> Targets(program, node)[i].mod == deps[i].mod && deps[i] in deps;
  }

  /** Where a module is written, relative to the output directory of the main package. */
  datatype OutputFile = MainFile(name: string) | DependencyFile(package: string, name: string)

  function EmittedAt(main: string, mod: ModuleId): OutputFile {
    if mod.address == main then MainFile(mod.name) else DependencyFile(mod.address, mod.name)
  }

  /** No two modules are written to the same file, and exactly the modules of the main package go to its
      own directory. */
  lemma FilesDiffer(main: string, a: ModuleId, b: ModuleId)
    ensures EmittedAt(main, a) == EmittedAt(main, b) <==> a == b
    ensures EmittedAt(main, a).MainFile? <==> a.address == main
    ensures EmittedAt(main, a).name == a.name
    ensures EmittedAt(main, a).DependencyFile? ==> EmittedAt(main, a).package == a.address
  {
    assert a == ModuleId(a.address, a.name) && b == ModuleId(b.address, b.name);
  }

  /** Where the code of a module looks for a datatype of another: in its own file if the resolved
      addresses and the names of the modules are the same, beside its own file if the addresses are
      the same, and in the directory of dependencies otherwise. */
  function LooksIn(mapping: AddressMapping, main: string, from: ModuleId, mod: ModuleId): OutputFile {
    if Resolve(mapping, mod.address) == Resolve(mapping, from.address) && mod.name == from.name
        then EmittedAt(main, from)
    else if mod.address == from.address then EmittedAt(main, ModuleId(from.address, mod.name))
    else DependencyFile(mod.address, mod.name)
  }

  /** A reference finds the file of its module exactly if it does not cross from a dependency into the
      main package, and does not mistake a module of another package that resolves to the same address
      for its own. */
  lemma ReferenceFindsFile(mapping: AddressMapping, main: string, from: ModuleId, mod: ModuleId)
    ensures LooksIn(mapping, main, from, mod) == EmittedAt(main, mod) <==>
              || mod.address == from.address
              || (mod.address != main && !(Resolve(mapping, mod.address) == Resolve(mapping, from.address)
                  && mod.name == from.name))
  {
    hide Resolve;
  }
}
