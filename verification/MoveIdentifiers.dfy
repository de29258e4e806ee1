/** update_identifiers of packages/move-bytecode-template/src/lib.rs: renaming in the identifier pool,
    sorting the pool, and remapping the handles that point into it. */
module MoveIdentifiers {
  import opened Results

  // ---------- The order of identifiers ----------

  /** Lexicographic order, as Rust compares the ASCII identifiers of Move. */
  predicate Leq(a: string, b: string) {
    a == [] || (b != [] && (a[0] < b[0] || (a[0] == b[0] && Leq(a[1..], b[1..]))))
  }

  lemma {:induction false} LeqTotal(a: string, b: string)
    ensures Leq(a, b) || Leq(b, a)
    ensures Leq(a, a)
  {
    if a != [] {
      LeqTotal(a[1..], if b == [] then [] else b[1..]);
    }
  }

  lemma {:induction false} LeqAntisymmetric(a: string, b: string)
    requires Leq(a, b) && Leq(b, a)
    ensures a == b
  {
    if a != [] {
      LeqAntisymmetric(a[1..], b[1..]);
      assert a == [a[0]] + a[1..] && b == [b[0]] + b[1..];
    }
  }

  lemma {:induction false} LeqTransitive(a: string, b: string, c: string)
    requires Leq(a, b) && Leq(b, c)
    ensures Leq(a, c)
  {
    if a != [] && a[0] == b[0] == c[0] {
      LeqTransitive(a[1..], b[1..], c[1..]);
    }
  }

  /** The first place where two identifiers differ, with the smaller character in the first one. */
  ghost predicate SmallerAt(a: string, b: string, k: nat) {
    k < |a| && k < |b| && a[k] < b[k] && forall j :: 0 <= j < k ==> a[j] == b[j]
  }

  lemma SmallerBehind(a: string, b: string, k: nat)
    requires a != [] && b != [] && a[0] == b[0]
    ensures SmallerAt(a, b, k + 1) <==> SmallerAt(a[1..], b[1..], k)
    ensures !SmallerAt(a, b, 0)
  {
    if SmallerAt(a[1..], b[1..], k) {
      forall j | 0 <= j < k + 1 ensures a[j] == b[j] {
        assert j > 0 ==> a[1..][j - 1] == b[1..][j - 1];
      }
    }
  }

  /** The shorter of two identifiers that agree as far as it goes comes first, and otherwise the one with
      the smaller character at the first place where they differ. */
  lemma {:induction false} LeqIsLexicographic(a: string, b: string)
    ensures Leq(a, b) <==> a <= b || exists k: nat :: SmallerAt(a, b, k)
    decreases |a|
  {
    if a != [] && b != [] {
      assert a == [a[0]] + a[1..] && b == [b[0]] + b[1..];
      if a[0] == b[0] {
        LeqIsLexicographic(a[1..], b[1..]);
        hide SmallerAt;
        if k: nat :| SmallerAt(a[1..], b[1..], k) {
          SmallerBehind(a, b, k);
        }
        SmallerBehind(a, b, 0);
        if k: nat :| SmallerAt(a, b, k) {
          SmallerBehind(a, b, if k > 0 then k - 1 else 0);
        }
      } else {
        assert a[0] < b[0] ==> SmallerAt(a, b, 0);
      }
    }
  }

  ghost predicate Sorted(s: seq<string>) {
    forall i, j :: 0 <= i < j < |s| ==> Leq(s[i], s[j])
  }

  // ---------- Renaming ----------

  datatype UpdateError = InvalidIdentifier(name: string) | Panic

  /** The first loop: an update applies to one identifier only, because it is removed with its use. */
  function Rename(pool: seq<string>, updates: map<string, string>, valid: string -> bool)
    : Result<seq<string>, UpdateError>
  {
    if pool == [] then Success([])
    else if pool[0] in updates then
      var new_ := updates[pool[0]];
      if !valid(new_) then Failure(InvalidIdentifier(new_))
      else
        var rest :- Rename(pool[1..], updates - {pool[0]}, valid);
        Success([new_] + rest)
    else
      var rest :- Rename(pool[1..], updates, valid);
      Success([pool[0]] + rest)
  }

  /** What an identifier becomes: its first occurrence is renamed. */
  function NewName(pool: seq<string>, updates: map<string, string>, i: nat): string
    requires i < |pool|
  {
    if pool[i] in updates && pool[i] !in pool[..i] then updates[pool[i]] else pool[i]
  }

  /** Renaming succeeds exactly if every name that is put into the pool is a valid identifier, and then
      it changes exactly the first occurrences of the names in the map. */
  lemma {:induction false} RenameAt(pool: seq<string>, updates: map<string, string>, valid: string -> bool)
    ensures Rename(pool, updates, valid).Success? <==> forall i :: 0 <= i < |pool| && pool[i] in updates ==>
        valid(updates[pool[i]])
    ensures var r := Rename(pool, updates, valid);
            r.Success? ==> |r.value| == |pool| && forall i :: 0 <= i < |pool| ==>
                r.value[i] == NewName(pool, updates, i)
    decreases |pool|
  {
    if pool != [] {
      var rest := if pool[0] in updates then updates - {pool[0]} else updates;
      RenameAt(pool[1..], rest, valid);
      var r := Rename(pool, updates, valid);
      var tail := Rename(pool[1..], rest, valid);
      assert forall i :: 0 < i < |pool| ==> pool[1..][i - 1] == pool[i];
      if r.Success? {
        forall i | 0 <= i < |pool|
          ensures r.value[i] == NewName(pool, updates, i)
        {
          if i > 0 {
            assert r.value[i] == tail.value[i - 1] == NewName(pool[1..], rest, i - 1);
            assert pool[..i] == [pool[0]] + pool[1..][..i - 1];
          }
        }
      }
    }
  }

  /** It fails with the first name that would be put into the pool and is not valid. */
  lemma {:induction false} RenameFails(pool: seq<string>, updates: map<string, string>, valid: string -> bool, i: nat)
    requires i < |pool| && pool[i] in updates && !valid(updates[pool[i]])
    requires forall j :: 0 <= j < i && pool[j] in updates ==> valid(updates[pool[j]])
    ensures Rename(pool, updates, valid) == Failure(InvalidIdentifier(updates[pool[i]]))
    decreases |pool|
  {
    if i > 0 {
      assert pool[i] != pool[0];
      assert forall j :: 0 <= j < i ==> pool[1..][j] == pool[j + 1] || j == i - 1;
      assert pool[1..][i - 1] == pool[i];
      var rest := if pool[0] in updates then updates - {pool[0]} else updates;
      RenameFails(pool[1..], rest, valid, i - 1);
    }
  }

  /** Equal identifiers that the map does not leave alone. */
  ghost predicate RenamedTwice(pool: seq<string>, updates: map<string, string>, i: nat, j: nat)
    requires i < |pool| && j < |pool|
  {
    i < j && pool[i] == pool[j] && pool[i] in updates && updates[pool[i]] != pool[i]
  }

  /** Every identifier that the map names becomes what the map says if and only if no two equal ones
      occur, unless the map leaves them alone. */
  lemma RenamesAllExactly(pool: seq<string>, updates: map<string, string>, valid: string -> bool)
    requires Rename(pool, updates, valid).Success?
    ensures var r := Rename(pool, updates, valid).value;
            && |r| == |pool|
            && ((forall i :: 0 <= i < |pool| && pool[i] in updates ==> r[i] == updates[pool[i]]) <==>
                forall i, j :: 0 <= i < |pool| && 0 <= j < |pool| ==> !RenamedTwice(pool, updates, i, j))
  {
    RenameAt(pool, updates, valid);
    hide Rename;
    var r := Rename(pool, updates, valid).value;
    forall i, j | 0 <= i < |pool| && 0 <= j < |pool| && RenamedTwice(pool, updates, i, j)
      ensures r[j] != updates[pool[j]]
    {
      assert pool[..j][i] == pool[j];
    }
    forall j | 0 <= j < |pool| && pool[j] in updates && r[j] != updates[pool[j]]
      ensures exists i :: 0 <= i < |pool| && RenamedTwice(pool, updates, i, j)
    {
      assert pool[j] in pool[..j];
      var i :| 0 <= i < j && pool[..j][i] == pool[j];
      assert RenamedTwice(pool, updates, i, j);
    }
  }

  /** Of two equal identifiers the second one keeps its name. */
  lemma SecondOfEqualStays(valid: string -> bool)
    requires valid("c")
    ensures Rename(["a", "a"], map["a" := "c"], valid) == Success(["c", "a"])
  {
    var pool, updates := ["a", "a"], map["a" := "c"];
    RenameAt(pool, updates, valid);
    hide Rename;
    assert Rename(pool, updates, valid).Success?;
    var r := Rename(pool, updates, valid).value;
    assert NewName(pool, updates, 0) == "c" && pool[..1] == ["a"] && NewName(pool, updates, 1) == "a";
    assert r[0] == "c" && r[1] == "a";
    assert r == ["c", "a"];
  }

  // ---------- Sorting ----------

  /** Where a stable sort puts a new last element: behind everything that is not greater. */
  function UpperBound(s: seq<string>, x: string): (p: nat)
    ensures p <= |s|
  {
    if s == [] || !Leq(s[0], x) then 0 else 1 + UpperBound(s[1..], x)
  }

  function InsertAt<T>(s: seq<T>, p: nat, x: T): seq<T>
    requires p <= |s|
  {
    s[..p] + [x] + s[p..]
  }

  function SortPool(pool: seq<string>): (r: seq<string>)
    ensures |r| == |pool|
  {
    if pool == [] then []
    else
      var n := |pool| - 1;
      var s := SortPool(pool[..n]);
      InsertAt(s, UpperBound(s, pool[n]), pool[n])
  }

  function Pick(pool: seq<string>, indexes: seq<nat>): (r: seq<string>)
    requires forall i :: 0 <= i < |indexes| ==> indexes[i] < |pool|
    ensures |r| == |indexes| && forall i :: 0 <= i < |r| ==> r[i] == pool[indexes[i]]
  {
    seq(|indexes|, i requires 0 <= i < |indexes| => pool[indexes[i]])
  }

  /** The indexes below k, stably sorted by the identifiers they stand for. */
  function SortIndexes(pool: seq<string>, k: nat): (r: seq<nat>)
    requires k <= |pool|
    ensures |r| == k && forall i :: 0 <= i < k ==> r[i] < k
  {
    if k == 0 then []
    else
      var s := SortIndexes(pool, k - 1);
      InsertAt(s, UpperBound(Pick(pool, s), pool[k - 1]), k - 1)
  }

  lemma PickInsert(pool: seq<string>, s: seq<nat>, p: nat, a: nat)
    requires (forall i :: 0 <= i < |s| ==> s[i] < |pool|) && p <= |s| && a < |pool|
    ensures var r := InsertAt(s, p, a);
            (forall i :: 0 <= i < |r| ==> r[i] < |pool|) && Pick(pool, r) == InsertAt(Pick(pool, s), p, pool[a])
  {
  }

  lemma SortUnfolds(pool: seq<string>, k: nat)
    requires 0 < k <= |pool|
    ensures var (s, t) := (SortIndexes(pool, k - 1), SortPool(pool[..k - 1]));
            && SortIndexes(pool, k) == InsertAt(s, UpperBound(Pick(pool, s), pool[k - 1]), k - 1)
            && SortPool(pool[..k]) == InsertAt(t, UpperBound(t, pool[k - 1]), pool[k - 1])
  {
    hide InsertAt, UpperBound, Pick;
    assert pool[..k][..k - 1] == pool[..k - 1];
  }

  /** The sorted pool is the pool read through the sorted indexes. */
  lemma {:induction false} SortsTogether(pool: seq<string>, k: nat)
    requires k <= |pool|
    ensures Pick(pool, SortIndexes(pool, k)) == SortPool(pool[..k])
  {
    if k == 0 {
      assert SortIndexes(pool, 0) == [] && SortPool(pool[..0]) == [];
    } else {
      SortUnfolds(pool, k);
      hide *;
      SortsTogether(pool, k - 1);
      var s := SortIndexes(pool, k - 1);
      var p := UpperBound(Pick(pool, s), pool[k - 1]);
      PickInsert(pool, s, p, k - 1);
    }
  }

  lemma {:induction false} UpperBoundSplits(s: seq<string>, x: string)
    requires Sorted(s)
    ensures var p := UpperBound(s, x);
            (forall i :: 0 <= i < p ==> Leq(s[i], x)) && (forall i :: p <= i < |s| ==> !Leq(s[i], x))
  {
    if s != [] {
      if Leq(s[0], x) {
        assert Sorted(s[1..]);
        UpperBoundSplits(s[1..], x);
        forall i | 0 <= i < |s|
          ensures i < UpperBound(s, x) <==> Leq(s[i], x)
        {
          if i > 0 {
            assert s[i] == s[1..][i - 1];
          }
        }
      } else {
        forall i | 0 <= i < |s|
          ensures !Leq(s[i], x)
        {
          if i > 0 && Leq(s[i], x) {
            LeqTransitive(s[0], s[i], x);
          }
        }
      }
    }
  }

  lemma InsertSorts(s: seq<string>, x: string)
    requires Sorted(s)
    ensures Sorted(InsertAt(s, UpperBound(s, x), x))
  {
    var p := UpperBound(s, x);
    UpperBoundSplits(s, x);
    hide UpperBound, Leq;
    forall i | p <= i < |s|
      ensures Leq(x, s[i])
    {
      LeqTotal(x, s[i]);
    }
  }

  lemma InsertAdds<T>(s: seq<T>, p: nat, x: T)
    requires p <= |s|
    ensures multiset(InsertAt(s, p, x)) == multiset(s) + multiset{x}
  {
    assert s == s[..p] + s[p..];
  }

  /** The sorted pool is sorted, and it is a permutation of the pool. */
  lemma {:induction false} SortPoolSorts(pool: seq<string>)
    ensures Sorted(SortPool(pool)) && multiset(SortPool(pool)) == multiset(pool)
    decreases |pool|
  {
    if pool != [] {
      var n := |pool| - 1;
      SortPoolSorts(pool[..n]);
      var s := SortPool(pool[..n]);
      InsertSorts(s, pool[n]);
      InsertAdds(s, UpperBound(s, pool[n]), pool[n]);
      hide Sorted, InsertAt, UpperBound;
      assert pool == pool[..n] + [pool[n]];
    }
  }

  // ---------- Finding the new place of an index ----------

  function Position(s: seq<nat>, a: nat): (p: nat)
    ensures p <= |s| && (p < |s| ==> s[p] == a) && (p == |s| ==> a !in s)
  {
    if s == [] then 0 else if s[0] == a then 0 else 1 + Position(s[1..], a)
  }

  lemma InsertHolds<T>(s: seq<T>, p: nat, x: T, y: T)
    requires p <= |s|
    ensures y == x || y in s ==> y in InsertAt(s, p, x)
  {
    assert s == s[..p] + s[p..];
    assert InsertAt(s, p, x)[p] == x;
  }

  lemma {:induction false} SortIndexesComplete(pool: seq<string>, k: nat, a: nat)
    requires a < k <= |pool|
    ensures a in SortIndexes(pool, k)
  {
    SortUnfolds(pool, k);
    hide SortIndexes, SortPool, UpperBound, Pick, InsertAt;
    var s := SortIndexes(pool, k - 1);
    InsertHolds(s, UpperBound(Pick(pool, s), pool[k - 1]), k - 1, a);
    if a < k - 1 {
      SortIndexesComplete(pool, k - 1, a);
    }
  }

  const U16 := 0x1_0000

  /** The place of an old index in the sorted pool, as a 16-bit number; None stands for a panic. */
  function FindPos(pool: seq<string>, a: nat): Option<nat> {
    var indexes := SortIndexes(pool, |pool|);
    var p := Position(indexes, a);
    if p == |indexes| then None else Some(p % U16)
  }

  /** find_pos inverts the sort: what an index meant before sorting is what its new index means after. */
  lemma FindPosResolves(pool: seq<string>, a: nat)
    requires |pool| <= U16
    ensures FindPos(pool, a).Some? <==> a < |pool|
    ensures a < |pool| ==>
              var p := FindPos(pool, a).value;
              p < |pool| && SortIndexes(pool, |pool|)[p] == a && SortPool(pool)[p] == pool[a]
  {
    hide SortIndexes, SortPool, Position;
    var indexes := SortIndexes(pool, |pool|);
    if a < |pool| {
      SortIndexesComplete(pool, |pool|, a);
      PoolThroughIndexes(pool, Position(indexes, a));
    }
  }

  lemma PoolThroughIndexes(pool: seq<string>, p: nat)
    requires p < |pool|
    ensures SortPool(pool)[p] == pool[SortIndexes(pool, |pool|)[p]]
  {
    hide SortIndexes, SortPool;
    SortsTogether(pool, |pool|);
    assert pool[..|pool|] == pool;
    var indexes := SortIndexes(pool, |pool|);
    assert Pick(pool, indexes)[p] == pool[indexes[p]];
  }

  // ---------- Modules ----------

  datatype FieldInformation = Native | Declared(names: seq<nat>)

  datatype Variant = Variant(name: nat, fields: seq<nat>)

  /** The parts of a compiled module that point into the identifier pool: the names of the module,
      datatype and function handles, of struct fields, of enum variants and their fields, and of the
      module handles that declare friends. */
  datatype Pools = Pools(
    identifiers: seq<string>,
    moduleHandles: seq<nat>,
    datatypeHandles: seq<nat>,
    functionHandles: seq<nat>,
    structDefs: seq<FieldInformation>,
    enumDefs: seq<seq<Variant>>,
    friendDecls: seq<nat>)

  function RemapNames(pool: seq<string>, names: seq<nat>): Result<seq<nat>, UpdateError> {
    if names == [] then Success([])
    else
      match FindPos(pool, names[0])
      case None => Failure(Panic)
      case Some(p) =>
        var rest :- RemapNames(pool, names[1..]);
        Success([p] + rest)
  }

  function RemapStructs(pool: seq<string>, defs: seq<FieldInformation>): Result<seq<FieldInformation>, UpdateError> {
    if defs == [] then Success([])
    else if defs[0].Native? then
      var rest :- RemapStructs(pool, defs[1..]);
      Success([Native] + rest)
    else
      var names :- RemapNames(pool, defs[0].names);
      var rest :- RemapStructs(pool, defs[1..]);
      Success([Declared(names)] + rest)
  }

  /** update_identifiers. The enum definitions and the friend declarations stay as they are. */
  function Update(m: Pools, updates: map<string, string>, valid: string -> bool): Result<Pools, UpdateError> {
    var renamed :- Rename(m.identifiers, updates, valid);
    var moduleHandles :- RemapNames(renamed, m.moduleHandles);
    var datatypeHandles :- RemapNames(renamed, m.datatypeHandles);
    var functionHandles :- RemapNames(renamed, m.functionHandles);
    var structDefs :- RemapStructs(renamed, m.structDefs);
    Success(Pools(SortPool(renamed), moduleHandles, datatypeHandles, functionHandles, structDefs, m.enumDefs,
                  m.friendDecls))
  }

  /** Names that resolve in one pool to what they resolved to, in order, in another one. */
  ghost predicate SameNames(before: seq<string>, names: seq<nat>, after: seq<string>, newNames: seq<nat>) {
    && |newNames| == |names|
    && forall i :: 0 <= i < |names| ==>
              names[i] < |before| && newNames[i] < |after| && after[newNames[i]] == before[names[i]]
  }

  ghost predicate SameFields(before: seq<string>, defs: seq<FieldInformation>, after: seq<string>,
                             newDefs: seq<FieldInformation>) {
    && |newDefs| == |defs|
    && forall i :: 0 <= i < |defs| ==>
         newDefs[i].Native? == defs[i].Native? && (defs[i].Declared? ==>
             SameNames(before, defs[i].names, after, newDefs[i].names))
  }

  ghost predicate InPool(pool: seq<string>, names: seq<nat>) {
    forall i :: 0 <= i < |names| ==> names[i] < |pool|
  }

  lemma {:induction false} RemapNamesResolves(pool: seq<string>, names: seq<nat>)
    requires |pool| <= U16
    ensures RemapNames(pool, names).Success? <==> InPool(pool, names)
    ensures InPool(pool, names) ==> SameNames(pool, names, SortPool(pool), RemapNames(pool, names).value)
  {
    hide FindPos, SortPool;
    if names != [] {
      FindPosResolves(pool, names[0]);
      RemapNamesResolves(pool, names[1..]);
      assert InPool(pool, names) <==> names[0] < |pool| && InPool(pool, names[1..]);
    }
  }

  lemma {:induction false} RemapStructsResolves(pool: seq<string>, defs: seq<FieldInformation>)
    requires |pool| <= U16
    ensures RemapStructs(pool, defs).Success? <==> forall i :: 0 <= i < |defs| && defs[i].Declared? ==>
        InPool(pool, defs[i].names)
    ensures RemapStructs(pool, defs).Success? ==> SameFields(pool, defs, SortPool(pool), RemapStructs(pool, defs).value)
  {
    hide RemapNames, SortPool, InPool, SameNames;
    if defs != [] {
      RemapStructsResolves(pool, defs[1..]);
      if defs[0].Declared? {
        RemapNamesResolves(pool, defs[0].names);
      }
      assert forall i :: 0 < i < |defs| ==> defs[i] == defs[1..][i - 1];
    }
  }

  /** Everything that update_identifiers remaps keeps its meaning: the new pool is a sorted permutation
      of the renamed one, and every handle and struct field resolves to the rename of what it resolved
      to before. It fails exactly if a name that it would use is invalid or an index is out of range. */
  lemma UpdateResolves(m: Pools, updates: map<string, string>, valid: string -> bool)
    requires |m.identifiers| <= 0x1_0000
    ensures var pool := Rename(m.identifiers, updates, valid);
            Update(m, updates, valid).Success? <==>
              && pool.Success?
              && InPool(pool.value, m.moduleHandles) && InPool(pool.value, m.datatypeHandles)
                  && InPool(pool.value, m.functionHandles)
              && forall i :: 0 <= i < |m.structDefs| && m.structDefs[i].Declared? ==>
                  InPool(pool.value, m.structDefs[i].names)
    ensures Update(m, updates, valid).Success? ==>
              var renamed, r := Rename(m.identifiers, updates, valid).value, Update(m, updates, valid).value;
              && Sorted(r.identifiers) && multiset(r.identifiers) == multiset(renamed)
              && SameNames(renamed, m.moduleHandles, r.identifiers, r.moduleHandles)
              && SameNames(renamed, m.datatypeHandles, r.identifiers, r.datatypeHandles)
              && SameNames(renamed, m.functionHandles, r.identifiers, r.functionHandles)
              && SameFields(renamed, m.structDefs, r.identifiers, r.structDefs)
  {
    hide RemapNames, RemapStructs, SortPool, InPool, SameNames, SameFields, Sorted, Rename;
    var pool := Rename(m.identifiers, updates, valid);
    if pool.Success? {
      RenameAt(m.identifiers, updates, valid);
      SortPoolSorts(pool.value);
      RemapNamesResolves(pool.value, m.moduleHandles);
      RemapNamesResolves(pool.value, m.datatypeHandles);
      RemapNamesResolves(pool.value, m.functionHandles);
      RemapStructsResolves(pool.value, m.structDefs);
    }
  }

  /** A failure is that of the renaming, or a panic, which leaves no module behind either. */
  lemma UpdateFails(m: Pools, updates: map<string, string>, valid: string -> bool)
    requires Update(m, updates, valid).Failure?
    ensures Update(m, updates, valid).error ==
            match Rename(m.identifiers, updates, valid)
            case Failure(e) => e
            case Success(_) => Panic
  {
    hide Rename, SortPool;
    if Rename(m.identifiers, updates, valid).Success? {
      var renamed := Rename(m.identifiers, updates, valid).value;
      NamesPanic(renamed, m.moduleHandles);
      NamesPanic(renamed, m.datatypeHandles);
      NamesPanic(renamed, m.functionHandles);
      StructsPanic(renamed, m.structDefs);
      hide RemapNames, RemapStructs;
    }
  }

  lemma {:induction false} NamesPanic(pool: seq<string>, names: seq<nat>)
    ensures RemapNames(pool, names).Failure? ==> RemapNames(pool, names).error == Panic
  {
    hide FindPos;
    if names != [] {
      NamesPanic(pool, names[1..]);
    }
  }

  lemma {:induction false} StructsPanic(pool: seq<string>, defs: seq<FieldInformation>)
    ensures RemapStructs(pool, defs).Failure? ==> RemapStructs(pool, defs).error == Panic
  {
    hide RemapNames;
    if defs != [] {
      StructsPanic(pool, defs[1..]);
      if defs[0].Declared? {
        NamesPanic(pool, defs[0].names);
      }
    }
  }

  // ---------- What is not remapped ----------

  /** How many identifiers of a pool are less than, or not greater than, an identifier. */
  function CountLess(pool: seq<string>, x: string): (n: nat)
    ensures n <= |pool|
  {
    if pool == [] then 0 else (if Leq(x, pool[|pool| - 1]) then 0 else 1) + CountLess(pool[..|pool| - 1], x)
  }

  function CountLeq(pool: seq<string>, x: string): (n: nat)
    ensures n <= |pool|
  {
    if pool == [] then 0 else (if Leq(pool[|pool| - 1], x) then 1 else 0) + CountLeq(pool[..|pool| - 1], x)
  }

  lemma {:induction false} CountsOfConcat(a: seq<string>, b: seq<string>, x: string)
    ensures CountLess(a + b, x) == CountLess(a, x) + CountLess(b, x)
    ensures CountLeq(a + b, x) == CountLeq(a, x) + CountLeq(b, x)
    decreases |b|
  {
    if b == [] {
      assert a + b == a;
    } else {
      assert (a + b)[..|a + b| - 1] == a + b[..|b| - 1];
      CountsOfConcat(a, b[..|b| - 1], x);
    }
  }

  lemma CountsOfInsert(s: seq<string>, p: nat, y: string, x: string)
    requires p <= |s|
    ensures CountLess(InsertAt(s, p, y), x) == CountLess(s, x) + CountLess([y], x)
    ensures CountLeq(InsertAt(s, p, y), x) == CountLeq(s, x) + CountLeq([y], x)
  {
    hide CountLess, CountLeq;
    assert s == s[..p] + s[p..];
    CountsOfConcat(s[..p], s[p..], x);
    CountsOfConcat(s[..p] + [y], s[p..], x);
    CountsOfConcat(s[..p], [y], x);
  }

  lemma {:induction false} SortingKeepsCounts(pool: seq<string>, x: string)
    ensures CountLess(SortPool(pool), x) == CountLess(pool, x)
    ensures CountLeq(SortPool(pool), x) == CountLeq(pool, x)
    decreases |pool|
  {
    if pool != [] {
      var n := |pool| - 1;
      SortingKeepsCounts(pool[..n], x);
      var s := SortPool(pool[..n]);
      var p := UpperBound(s, pool[n]);
      hide CountLess, CountLeq, UpperBound;
      CountsOfInsert(s, p, pool[n], x);
      assert pool == pool[..n] + [pool[n]];
      CountsOfConcat(pool[..n], [pool[n]], x);
    }
  }

  /** In a sorted pool the identifiers less than one come first, then those equal to it. */
  lemma {:induction false} CountsAreRanks(s: seq<string>, x: string, i: nat)
    requires Sorted(s) && i < |s|
    ensures !Leq(x, s[i]) <==> i < CountLess(s, x)
    ensures Leq(s[i], x) <==> i < CountLeq(s, x)
    decreases |s|
  {
    var n := |s| - 1;
    if i < n {
      CountsAreRanks(s[..n], x, i);
      if Leq(x, s[i]) {
        LeqTransitive(x, s[i], s[n]);
      }
    } else {
      AllBelow(s, x);
    }
    LastIsGreatest(s, x);
  }

  lemma LastIsGreatest(s: seq<string>, x: string)
    requires Sorted(s) && s != []
    ensures !Leq(x, s[|s| - 1]) ==> CountLess(s, x) == |s|
    ensures Leq(s[|s| - 1], x) ==> CountLeq(s, x) == |s|
  {
    AllBelow(s, x);
  }

  lemma {:induction false} AllBelow(s: seq<string>, x: string)
    requires Sorted(s) && s != []
    ensures !Leq(x, s[|s| - 1]) <==> CountLess(s, x) == |s|
    ensures Leq(s[|s| - 1], x) <==> CountLeq(s, x) == |s|
    decreases |s|
  {
    var n := |s| - 1;
    if n > 0 {
      AllBelow(s[..n], x);
      if Leq(x, s[n - 1]) {
        LeqTransitive(x, s[n - 1], s[n]);
      }
      if Leq(s[n], x) {
        LeqTransitive(s[n - 1], s[n], x);
      }
    }
  }

  /** An index that is left as it is resolves to the same identifier exactly if sorting happens not to
      move it away from the identifiers equal to its own. */
  lemma UnmappedIndexResolves(pool: seq<string>, i: nat)
    requires i < |pool|
    ensures SortPool(pool)[i] == pool[i] <==> CountLess(pool, pool[i]) <= i < CountLeq(pool, pool[i])
  {
    hide SortPool, CountLess, CountLeq;
    var s, x := SortPool(pool), pool[i];
    SortPoolSorts(pool);
    SortingKeepsCounts(pool, x);
    CountsAreRanks(s, x, i);
    LeqTotal(x, x);
    if Leq(x, s[i]) && Leq(s[i], x) {
      LeqAntisymmetric(x, s[i]);
    }
  }

  /** The names that an enum definition uses. */
  function EnumNames(variants: seq<Variant>): seq<nat> {
    if variants == [] then [] else [variants[0].name] + variants[0].fields + EnumNames(variants[1..])
  }

  /** Whether every index lies in the rank interval of its identifier. */
  ghost predicate InRank(pool: seq<string>, names: seq<nat>)
    requires InPool(pool, names)
  {
    forall i :: 0 <= i < |names| ==> CountLess(pool, pool[names[i]]) <= names[i] < CountLeq(pool, pool[names[i]])
  }

  lemma UnmappedNamesResolve(pool: seq<string>, names: seq<nat>)
    requires InPool(pool, names)
    ensures SameNames(pool, names, SortPool(pool), names) <==> InRank(pool, names)
  {
    hide SortPool, CountLess, CountLeq;
    forall i | 0 <= i < |names|
      ensures SortPool(pool)[names[i]] == pool[names[i]] <==>
              CountLess(pool, pool[names[i]]) <= names[i] < CountLeq(pool, pool[names[i]])
    {
      UnmappedIndexResolves(pool, names[i]);
    }
  }

  /** An enum definition keeps its meaning exactly if each of its indexes stays among the identifiers
      equal to its own. */
  lemma EnumResolvesExactly(m: Pools, updates: map<string, string>, valid: string -> bool, e: nat)
    requires Update(m, updates, valid).Success? && e < |m.enumDefs|
    requires InPool(m.identifiers, EnumNames(m.enumDefs[e]))
    ensures var renamed, r := Rename(m.identifiers, updates, valid).value, Update(m, updates, valid).value;
            var names := EnumNames(m.enumDefs[e]);
            && |renamed| == |m.identifiers|
            && e < |r.enumDefs|
            && (SameNames(renamed, names, r.identifiers, EnumNames(r.enumDefs[e])) <==> InRank(renamed, names))
  {
    hide SortPool, CountLess, CountLeq, Rename, RemapNames, RemapStructs, EnumNames;
    RenameAt(m.identifiers, updates, valid);
    UnmappedNamesResolve(Rename(m.identifiers, updates, valid).value, EnumNames(m.enumDefs[e]));
  }

  /** So do the friend declarations. */
  lemma FriendsResolveExactly(m: Pools, updates: map<string, string>, valid: string -> bool)
    requires Update(m, updates, valid).Success? && InPool(m.identifiers, m.friendDecls)
    ensures var renamed, r := Rename(m.identifiers, updates, valid).value, Update(m, updates, valid).value;
            && |renamed| == |m.identifiers|
            && (SameNames(renamed, m.friendDecls, r.identifiers, r.friendDecls) <==> InRank(renamed, m.friendDecls))
  {
    hide SortPool, CountLess, CountLeq, Rename, RemapNames, RemapStructs;
    RenameAt(m.identifiers, updates, valid);
    UnmappedNamesResolve(Rename(m.identifiers, updates, valid).value, m.friendDecls);
  }

  lemma UpperBoundIs(s: seq<string>, x: string, p: nat)
    requires Sorted(s) && p <= |s|
    requires (forall i :: 0 <= i < p ==> Leq(s[i], x)) && (p < |s| ==> !Leq(s[p], x))
    ensures UpperBound(s, x) == p
  {
    UpperBoundSplits(s, x);
    hide Leq, UpperBound, Sorted;
    var u := UpperBound(s, x);
    assert u < |s| ==> !Leq(s[u], x);
  }

  lemma InsertLast(pool: seq<string>, x: string, p: nat)
    requires var s := SortPool(pool);
             && p <= |s| && (forall i :: 0 <= i < p ==> Leq(s[i], x)) && (p < |s| ==> !Leq(s[p], x))
    ensures SortPool(pool + [x]) == InsertAt(SortPool(pool), p, x)
  {
    assert (pool + [x])[..|pool|] == pool;
    SortPoolSorts(pool);
    hide Leq, InsertAt, Sorted, UpperBound;
    UpperBoundIs(SortPool(pool), x, p);
  }

  lemma SortsLastTwo(e: string, m: string, c: string, b: string)
    requires Leq(e, m) && Leq(e, c) && Leq(m, c) && Leq(e, b) && Leq(m, b) && !Leq(c, b)
    ensures SortPool([e, m, c, b]) == [e, m, b, c]
  {
    hide Leq, SortPool;
    assert SortPool([]) == [] by {
      SortPoolSorts([]);
    }
    InsertLast([], e, 0);
    assert [] + [e] == [e];
    InsertLast([e], m, 1);
    assert [e] + [m] == [e, m];
    InsertLast([e, m], c, 2);
    assert [e, m] + [c] == [e, m, c];
    InsertLast([e, m, c], b, 2);
    assert [e, m, c] + [b] == [e, m, c, b];
  }

  /** A module M whose enum E has the variants a and b: renaming a to c exchanges the variants' names,
      while the handles keep theirs. */
  lemma EnumVariantsExchange(valid: string -> bool)
    requires valid("c")
    ensures var m := Pools(["E", "M", "a", "b"], [1], [0], [], [], [[Variant(2, []), Variant(3, [])]], []);
            Update(m, map["a" := "c"], valid) == Success(m.(identifiers := ["E", "M", "b", "c"]))
  {
    var m := Pools(["E", "M", "a", "b"], [1], [0], [], [], [[Variant(2, []), Variant(3, [])]], []);
    assert Leq("E", "M") && Leq("E", "c") && Leq("M", "c") && Leq("E", "b") && Leq("M", "b") && !Leq("c", "b");
    SortsLastTwo("E", "M", "c", "b");
    ThirdIsRenamed("E", "M", "a", "b", "c", valid);
    hide Rename, SortPool, Leq;
    HandlesStay(m, map["a" := "c"], valid, ["E", "M", "c", "b"]);
  }

  lemma ThirdIsRenamed(p: string, q: string, a: string, b: string, c: string, valid: string -> bool)
    requires a != p && a != q && a != b && valid(c)
    ensures Rename([p, q, a, b], map[a := c], valid) == Success([p, q, c, b])
  {
    var pool, updates := [p, q, a, b], map[a := c];
    RenameAt(pool, updates, valid);
    hide Rename;
    assert Rename(pool, updates, valid).Success?;
    assert NewName(pool, updates, 0) == p && NewName(pool, updates, 1) == q;
    assert NewName(pool, updates, 2) == c && NewName(pool, updates, 3) == b;
    assert Rename(pool, updates, valid).value == [p, q, c, b];
  }

  lemma HandlesStay(m: Pools, updates: map<string, string>, valid: string -> bool, renamed: seq<string>)
    requires Rename(m.identifiers, updates, valid) == Success(renamed)
    requires 2 <= |renamed| <= U16
    requires forall p :: 0 <= p < |renamed| && SortPool(renamed)[p] == renamed[0] ==> p == 0
    requires forall p :: 0 <= p < |renamed| && SortPool(renamed)[p] == renamed[1] ==> p == 1
    requires m.moduleHandles == [1] && m.datatypeHandles == [0] && m.functionHandles == [] && m.structDefs == []
    ensures Update(m, updates, valid) == Success(m.(identifiers := SortPool(renamed)))
  {
    hide Rename, FindPos, SortPool, SortIndexes;
    FindPosResolves(renamed, 0);
    FindPosResolves(renamed, 1);
    RemapOne(renamed, 0, 0);
    RemapOne(renamed, 1, 1);
    hide RemapNames;
    assert RemapNames(renamed, []) == Success([]) by {
      RemapNone(renamed);
    }
  }

  lemma RemapNone(pool: seq<string>)
    ensures RemapNames(pool, []) == Success([])
  {
  }

  lemma RemapOne(pool: seq<string>, a: nat, p: nat)
    requires FindPos(pool, a) == Some(p)
    ensures RemapNames(pool, [a]) == Success([p])
  {
    hide FindPos;
    var names, none: seq<nat> := [a], [];
    assert names[1..] == none && [p] + none == [p];
    RemapNone(pool);
  }

  // ---------- The loops over a module ----------

  /** A list whose first part is done. */
  function Prefixed<T>(done: seq<T>, rest: Result<seq<T>, UpdateError>): Result<seq<T>, UpdateError> {
    if rest.Failure? then rest else Success(done + rest.value)
  }

  lemma PrefixedOneMore<T>(done: seq<T>, first: T, rest: Result<seq<T>, UpdateError>)
    ensures Prefixed(done, Prefixed([first], rest)) == Prefixed(done + [first], rest)
  {
    if rest.Success? {
      assert done + ([first] + rest.value) == done + [first] + rest.value;
    }
  }

  lemma PrefixedEnds<T>(all: Result<seq<T>, UpdateError>, done: seq<T>)
    ensures Prefixed([], all) == all
    ensures Prefixed(done, Success([])) == Success(done)
  {
    if all.Success? {
      assert [] + all.value == all.value;
    }
    assert done + [] == done;
  }

  method IterPosition(indexes: seq<nat>, a: nat) returns (p: nat)
    ensures p == Position(indexes, a)
  {
    p := 0;
    while p < |indexes| && indexes[p] != a
      invariant 0 <= p <= |indexes|
      invariant Position(indexes, a) == p + Position(indexes[p..], a)
    {
      assert indexes[p..][1..] == indexes[p + 1..];
      p := p + 1;
    }
  }

  method RemapHandles(pool: seq<string>, indexes: seq<nat>, names: seq<nat>) returns (r: Result<seq<nat>, UpdateError>)
    requires indexes == SortIndexes(pool, |pool|)
    ensures r == RemapNames(pool, names)
  {
    hide SortIndexes, Position;
    var handles := names;
    var i := 0;
    PrefixedEnds(RemapNames(pool, names), []);
    while i < |names|
      invariant 0 <= i <= |names| == |handles|
      invariant handles[i..] == names[i..]
      invariant RemapNames(pool, names) == Prefixed(handles[..i], RemapNames(pool, names[i..]))
    {
      var p := IterPosition(indexes, handles[i]);
      assert handles[i] == handles[i..][0] == names[i] && names[i..][1..] == names[i + 1..];
      if p == |indexes| {
        return Failure(Panic);
      }
      PrefixedOneMore(handles[..i], p % U16, RemapNames(pool, names[i + 1..]));
      assert handles[i := p % U16][..i + 1] == handles[..i] + [p % U16];
      assert handles[i := p % U16][i + 1..] == handles[i..][1..];
      handles := handles[i := p % U16];
      i := i + 1;
    }
    PrefixedEnds(RemapNames(pool, names), handles);
    assert handles[..i] == handles;
    r := Success(handles);
  }

  method RemapFields(pool: seq<string>, indexes: seq<nat>, defs: seq<FieldInformation>)
    returns (r: Result<seq<FieldInformation>, UpdateError>)
    requires indexes == SortIndexes(pool, |pool|)
    ensures r == RemapStructs(pool, defs)
  {
    hide SortIndexes, RemapNames;
    var newDefs := defs;
    var i := 0;
    PrefixedEnds(RemapStructs(pool, defs), []);
    while i < |defs|
      invariant 0 <= i <= |defs| == |newDefs|
      invariant newDefs[i..] == defs[i..]
      invariant RemapStructs(pool, defs) == Prefixed(newDefs[..i], RemapStructs(pool, defs[i..]))
    {
      assert newDefs[i] == newDefs[i..][0] == defs[i] && defs[i..][1..] == defs[i + 1..];
      var def := newDefs[i];
      if def.Declared? {
        var names :- RemapHandles(pool, indexes, def.names);
        def := Declared(names);
      }
      PrefixedOneMore(newDefs[..i], def, RemapStructs(pool, defs[i + 1..]));
      assert newDefs[i := def][..i + 1] == newDefs[..i] + [def];
      assert newDefs[i := def][i + 1..] == newDefs[i..][1..];
      newDefs := newDefs[i := def];
      i := i + 1;
    }
    PrefixedEnds(RemapStructs(pool, defs), newDefs);
    assert newDefs[..i] == newDefs;
    r := Success(newDefs);
  }

  class CompiledModule {
    var identifiers: seq<string>
    var moduleHandles: seq<nat>
    var datatypeHandles: seq<nat>
    var functionHandles: seq<nat>
    var structDefs: seq<FieldInformation>
    var enumDefs: seq<seq<Variant>>
    var friendDecls: seq<nat>

    function Model(): Pools
      reads this
    {
      Pools(identifiers, moduleHandles, datatypeHandles, functionHandles, structDefs, enumDefs, friendDecls)
    }

    constructor (pools: Pools)
      ensures Model() == pools
    {
      identifiers, moduleHandles, datatypeHandles := pools.identifiers, pools.moduleHandles, pools.datatypeHandles;
      functionHandles, structDefs := pools.functionHandles, pools.structDefs;
      enumDefs, friendDecls := pools.enumDefs, pools.friendDecls;
    }

    method RenameIdentifiers(map_: map<string, string>, valid: string -> bool) returns (r: Result<(), UpdateError>)
      modifies this`identifiers
      ensures match Rename(old(identifiers), map_, valid)
              case Success(renamed) => r == Success(()) && identifiers == renamed
              case Failure(e) => r == Failure(e)
    {
      var updates := map_;
      ghost var pool := identifiers;
      var i := 0;
      PrefixedEnds(Rename(pool, map_, valid), []);
      assert identifiers[0..] == pool;
      while i < |identifiers|
        invariant 0 <= i <= |identifiers| == |pool|
        invariant identifiers[i..] == pool[i..]
        invariant Rename(pool, map_, valid) == Prefixed(identifiers[..i], Rename(pool[i..], updates, valid))
      {
        var old_ := identifiers[i];
        assert old_ == identifiers[i..][0] == pool[i] && pool[i..][1..] == pool[i + 1..];
        ghost var done := identifiers[..i];
        if old_ in updates {
          var new_ := updates[old_];
          updates := updates - {old_};
          if !valid(new_) {
            return Failure(InvalidIdentifier(new_));
          }
          identifiers := identifiers[i := new_];
        }
        PrefixedOneMore(done, identifiers[i], Rename(pool[i + 1..], updates, valid));
        assert identifiers[..i + 1] == done + [identifiers[i]];
        assert identifiers[i + 1..] == pool[i + 1..];
        i := i + 1;
      }
      PrefixedEnds(Rename(pool, map_, valid), identifiers);
      assert identifiers[..i] == identifiers && pool[i..] == [];
      r := Success(());
    }

    /** update_identifiers, on a module that has been deserialized and is serialized only on success. */
    method UpdateIdentifiers(updates: map<string, string>, valid: string -> bool) returns (r: Result<(), UpdateError>)
      modifies this
      ensures match Update(old(Model()), updates, valid)
              case Success(pools) => r == Success(()) && Model() == pools
              case Failure(e) => r == Failure(e)
    {
      hide Rename, RemapNames, RemapStructs, SortPool;
      var _ :- RenameIdentifiers(updates, valid);
      var indexes := SortIndexes(identifiers, |identifiers|);
      var renamed := identifiers;
      identifiers := SortPool(identifiers);
      moduleHandles :- RemapHandles(renamed, indexes, moduleHandles);
      datatypeHandles :- RemapHandles(renamed, indexes, datatypeHandles);
      functionHandles :- RemapHandles(renamed, indexes, functionHandles);
      structDefs :- RemapFields(renamed, indexes, structDefs);
      r := Success(());
    }
  }
}
