/** Which sections a link keeps (crates/ipu-elf/src/lib.rs).

    Starting from the sections that define the root symbols, a worklist follows relocations,
    local ones by section and undefined ones by global name. The module proves that it ends
    on every object graph, cyclic ones too, with exactly the reachable sections, and that
    these are the least set closed under relocation. */
module LinkerReach {

  datatype Option<T> = None | Some(value: T)

  /** A section of one of the objects. */
  datatype Id = Id(object_: nat, section: nat)

  datatype Symbol = Symbol(name: string, isDefinition: bool, isGlobal: bool, isWeak: bool, section: Option<nat>)

  datatype Target = ToSection(section: nat) | ToSymbol(symbol: nat) | Other

  /** Sections by index with the targets of their relocations, and the symbol table. */
  datatype Object = Object(sections: map<nat, seq<Target>>, symbols: seq<Symbol>)

  datatype Result<T> = Ok(value: T) | DuplicateSymbol | MissingRoot | Malformed

  // ---------------------------------------------------------------------------
  // Definitions by name
  // ---------------------------------------------------------------------------

  predicate Exports(symbol: Symbol) {
    symbol.isDefinition && (symbol.isGlobal || symbol.isWeak) && symbol.section.Some?
  }

  datatype Definition = Definition(name: string, id: Id)

  /** The exported definitions of the first `i` objects and of the first `k` symbols of the next. */
  ghost function Exported(objects: seq<Object>, i: nat, k: nat): seq<Definition>
    requires i <= |objects| && (if i < |objects| then k <= |objects[i].symbols| else k == 0)
    decreases i, k
  {
    if k > 0 then
      var symbol := objects[i].symbols[k - 1];
      Exported(objects, i, k - 1) + if Exports(symbol) then [Definition(symbol.name, Id(i, symbol.section.value))] else []
    else if i > 0 then Exported(objects, i - 1, |objects[i - 1].symbols|)
    else []
  }

  /** No name is exported twice. */
  ghost predicate Distinct(definitions: seq<Definition>) {
    forall a, b :: 0 <= a < b < |definitions| ==> definitions[a].name != definitions[b].name
  }

  /** The table says where each exported name is defined, and nothing else. */
  ghost predicate Tabulates(table: map<string, Id>, definitions: seq<Definition>) {
    && (forall a :: 0 <= a < |definitions| ==> definitions[a].name in table && table[definitions[a].name] == definitions[a].id)
    && (forall name :: name in table ==> exists a :: 0 <= a < |definitions| && definitions[a].name == name)
  }

  lemma {:induction false} ExportedGrows(objects: seq<Object>, i: nat, k: nat, j: nat, m: nat)
    requires j <= |objects| && (if j < |objects| then m <= |objects[j].symbols| else m == 0)
    requires i < |objects| && k <= |objects[i].symbols| && (i < j || (i == j && k <= m))
    ensures Exported(objects, i, k) <= Exported(objects, j, m)
    decreases j, m
  {
    if i == j && k == m {
    } else if m > 0 {
      ExportedGrows(objects, i, k, j, m - 1);
    } else {
      ExportedGrows(objects, i, k, j - 1, |objects[j - 1].symbols|);
    }
  }

  lemma ExportedNext(objects: seq<Object>, i: nat, k: nat)
    requires i < |objects| && k < |objects[i].symbols|
    ensures Exported(objects, i, k + 1) ==
            if Exports(objects[i].symbols[k]) then Exported(objects, i, k) + [DefinitionAt(objects, i, k)]
            else Exported(objects, i, k)
  {
  }

  lemma ExportedObject(objects: seq<Object>, i: nat)
    requires i < |objects|
    ensures Exported(objects, 0, 0) == [] && Exported(objects, i + 1, 0) == Exported(objects, i, |objects[i].symbols|)
  {
  }

  ghost function DefinitionAt(objects: seq<Object>, i: nat, k: nat): Definition
    requires i < |objects| && k < |objects[i].symbols| && Exports(objects[i].symbols[k])
  {
    Definition(objects[i].symbols[k].name, Id(i, objects[i].symbols[k].section.value))
  }

  ghost predicate Tabulated(table: map<string, Id>, definitions: seq<Definition>) {
    Tabulates(table, definitions) && Distinct(definitions)
  }

  lemma TabulatesNext(table: map<string, Id>, definitions: seq<Definition>, d: Definition)
    requires Tabulated(table, definitions) && d.name !in table
    ensures Tabulated(table[d.name := d.id], definitions + [d])
  {
    var longer, larger := definitions + [d], table[d.name := d.id];
    forall name | name in larger
      ensures exists a :: 0 <= a < |longer| && longer[a].name == name
    {
      if name == d.name {
        assert longer[|definitions|].name == name;
      } else {
        var a :| 0 <= a < |definitions| && definitions[a].name == name;
        assert longer[a].name == name;
      }
    }
  }

  lemma TabulatedClashes(table: map<string, Id>, definitions: seq<Definition>, d: Definition, all: seq<Definition>)
    requires Tabulated(table, definitions) && d.name in table && definitions + [d] <= all
    ensures !Distinct(all)
  {
    var a :| 0 <= a < |definitions| && definitions[a].name == d.name;
    assert all[a] == (definitions + [d])[a] && all[|definitions|] == (definitions + [d])[|definitions|];
  }

  /** The table has every exported name, unless one is exported twice. */
  method CollectDefinitions(objects: seq<Object>) returns (r: Result<map<string, Id>>)
    ensures r == DuplicateSymbol <==> !Distinct(Exported(objects, |objects|, 0))
    ensures r == DuplicateSymbol || (r.Ok? && Tabulates(r.value, Exported(objects, |objects|, 0)))
  {
    hide Tabulated, Distinct, Exported, Tabulates;
    var table: map<string, Id> := map[];
    NothingTabulated(objects);
    for i := 0 to |objects|
      invariant Tabulated(table, Exported(objects, i, 0))
    {
      for k := 0 to |objects[i].symbols|
        invariant Tabulated(table, Exported(objects, i, k))
      {
        var symbol := objects[i].symbols[k];
        ExportedNext(objects, i, k);
        if Exports(symbol) {
          if symbol.name in table {
            ExportedGrows(objects, i, k + 1, |objects|, 0);
            TabulatedClashes(table, Exported(objects, i, k), DefinitionAt(objects, i, k), Exported(objects, |objects|, 0));
            return DuplicateSymbol;
          }
          TabulatesNext(table, Exported(objects, i, k), DefinitionAt(objects, i, k));
          table := table[symbol.name := Id(i, symbol.section.value)];
        }
      }
      ExportedObject(objects, i);
    }
    TabulatedMeans(table, Exported(objects, |objects|, 0));
    r := Ok(table);
  }

  lemma NothingTabulated(objects: seq<Object>)
    ensures Tabulated(map[], Exported(objects, 0, 0))
  {
  }

  lemma TabulatedMeans(table: map<string, Id>, definitions: seq<Definition>)
    requires Tabulated(table, definitions)
    ensures Tabulates(table, definitions) && Distinct(definitions)
  {
  }

  // ---------------------------------------------------------------------------
  // Reachability
  // ---------------------------------------------------------------------------

  predicate Exists(objects: seq<Object>, id: Id) {
    id.object_ < |objects| && id.section in objects[id.object_].sections
  }

  /** Where relocation `k` of a section leads, if anywhere. */
  function Follow(objects: seq<Object>, table: map<string, Id>, id: Id, k: nat): Option<Id>
    requires Exists(objects, id) && k < |objects[id.object_].sections[id.section]|
  {
    match objects[id.object_].sections[id.section][k]
    case ToSection(section) => Some(Id(id.object_, section))
    case ToSymbol(index) =>
      if index >= |objects[id.object_].symbols| then None
      else
        var symbol := objects[id.object_].symbols[index];
        if symbol.section.Some? then Some(Id(id.object_, symbol.section.value))
        else if symbol.name in table then Some(table[symbol.name])
        else None
    case Other => None
  }

  /** The section does not exist, or names a symbol that does not. */
  predicate Broken(objects: seq<Object>, id: Id) {
    !Exists(objects, id)
    || exists k :: 0 <= k < |objects[id.object_].sections[id.section]| && BadSymbol(objects, id, k)
  }

  predicate BadSymbol(objects: seq<Object>, id: Id, k: nat)
    requires Exists(objects, id) && k < |objects[id.object_].sections[id.section]|
  {
    var target := objects[id.object_].sections[id.section][k];
    target.ToSymbol? && target.symbol >= |objects[id.object_].symbols|
  }

  ghost predicate Leads(objects: seq<Object>, table: map<string, Id>, from: Id, to_: Id) {
    Exists(objects, from)
    && exists k :: 0 <= k < |objects[from.object_].sections[from.section]| && Follow(objects, table, from, k) == Some(to_)
  }

  /** A path of relocations that starts at the section of a root symbol. */
  ghost predicate IsPath(objects: seq<Object>, table: map<string, Id>, roots: seq<string>, path: seq<Id>) {
    && path != []
    && (exists r :: 0 <= r < |roots| && roots[r] in table && table[roots[r]] == path[0])
    && forall i :: 0 <= i < |path| - 1 ==> Leads(objects, table, path[i], path[i + 1])
  }

  ghost predicate Reachable(objects: seq<Object>, table: map<string, Id>, roots: seq<string>, id: Id) {
    exists path :: IsPath(objects, table, roots, path) && path[|path| - 1] == id
  }

  ghost predicate HasRoots(table: map<string, Id>, roots: seq<string>, kept: iset<Id>) {
    forall r :: 0 <= r < |roots| && roots[r] in table ==> table[roots[r]] in kept
  }

  ghost predicate Closed(objects: seq<Object>, table: map<string, Id>, kept: iset<Id>) {
    forall a, b :: a in kept && Leads(objects, table, a, b) ==> b in kept
  }

  lemma RootReachable(objects: seq<Object>, table: map<string, Id>, roots: seq<string>, r: nat)
    requires r < |roots| && roots[r] in table
    ensures Reachable(objects, table, roots, table[roots[r]])
  {
    var path := [table[roots[r]]];
    assert IsPath(objects, table, roots, path);
  }

  lemma LeadsReachable(objects: seq<Object>, table: map<string, Id>, roots: seq<string>, a: Id, b: Id)
    requires Reachable(objects, table, roots, a) && Leads(objects, table, a, b)
    ensures Reachable(objects, table, roots, b)
  {
    hide Leads;
    var path :| IsPath(objects, table, roots, path) && path[|path| - 1] == a;
    assert IsPath(objects, table, roots, path + [b]);
  }

  /** The reachable sections are in every closed set that contains the roots. */
  lemma {:induction false} ReachableIsLeast(objects: seq<Object>, table: map<string, Id>, roots: seq<string>,
                                            kept: iset<Id>, path: seq<Id>)
    requires HasRoots(table, roots, kept) && Closed(objects, table, kept) && IsPath(objects, table, roots, path)
    ensures path[|path| - 1] in kept
  {
    hide Leads;
    if |path| > 1 {
      var shorter := path[..|path| - 1];
      ReachableIsLeast(objects, table, roots, kept, shorter);
      assert Leads(objects, table, path[|path| - 2], path[|path| - 1]);
    }
  }

  /** The reachable sections contain the roots and are closed: they are the least such set. */
  lemma ReachableIsClosed(objects: seq<Object>, table: map<string, Id>, roots: seq<string>)
    ensures HasRoots(table, roots, (iset id | Reachable(objects, table, roots, id)))
    ensures Closed(objects, table, (iset id | Reachable(objects, table, roots, id)))
  {
    hide Leads, Reachable;
    var all := iset id | Reachable(objects, table, roots, id);
    forall r | 0 <= r < |roots| && roots[r] in table
      ensures table[roots[r]] in all
    {
      RootReachable(objects, table, roots, r);
    }
    forall a, b | a in all && Leads(objects, table, a, b)
      ensures b in all
    {
      LeadsReachable(objects, table, roots, a, b);
    }
  }

  // ---------------------------------------------------------------------------
  // The same on the objects alone
  // ---------------------------------------------------------------------------

  /** The section defines the name for all objects. */
  ghost predicate Defines(objects: seq<Object>, name: string, id: Id) {
    id.object_ < |objects| && exists k :: 0 <= k < |objects[id.object_].symbols| && DefinesAt(objects[id.object_].symbols[k], name, id.section)
  }

  ghost predicate DefinesAt(symbol: Symbol, name: string, section: nat) {
    symbol.name == name && symbol.isDefinition && (symbol.isGlobal || symbol.isWeak) && symbol.section == Some(section)
  }

  /** A relocation of object `index` leads to the section: to one of the same object, by number or
      by a symbol that has one, or to the one that defines the symbol's name. */
  ghost predicate Refers(objects: seq<Object>, index: nat, target: Target, to_: Id)
    requires index < |objects|
  {
    match target
    case ToSection(section) => to_.object_ == index && to_.section == section
    case ToSymbol(k) =>
      k < |objects[index].symbols|
      && if objects[index].symbols[k].section.Some? then
           to_.object_ == index && objects[index].symbols[k].section == Some(to_.section)
         else Defines(objects, objects[index].symbols[k].name, to_)
    case Other => false
  }

  ghost predicate RefersFrom(objects: seq<Object>, from: Id, to_: Id) {
    && from.object_ < |objects| && from.section in objects[from.object_].sections
    && exists k :: 0 <= k < |objects[from.object_].sections[from.section]|
         && Refers(objects, from.object_, objects[from.object_].sections[from.section][k], to_)
  }

  /** What the root names define is kept, and what kept sections refer to. */
  ghost predicate IsClosed(objects: seq<Object>, roots: seq<string>, kept: iset<Id>) {
    && (forall r, id :: 0 <= r < |roots| && Defines(objects, roots[r], id) ==> id in kept)
    && (forall a, b :: a in kept && RefersFrom(objects, a, b) ==> b in kept)
  }

  /** The kept sections are closed, and in every closed set. */
  ghost predicate IsLeast(objects: seq<Object>, roots: seq<string>, kept: set<Id>) {
    && IsClosed(objects, roots, (iset id | id in kept))
    && forall other: iset<Id> :: IsClosed(objects, roots, other) ==> forall id :: id in kept ==> id in other
  }

  lemma {:induction false} ExportedAre(objects: seq<Object>, i: nat, k: nat, d: Definition)
    requires i <= |objects| && (if i < |objects| then k <= |objects[i].symbols| else k == 0)
    ensures d in Exported(objects, i, k) <==>
            || (d.id.object_ < i && Defines(objects, d.name, d.id))
            || (d.id.object_ == i && i < |objects| && exists j :: 0 <= j < k && DefinesAt(objects[i].symbols[j], d.name, d.id.section))
    decreases i, k
  {
    if k > 0 {
      ExportedAre(objects, i, k - 1, d);
    } else if i > 0 {
      ExportedAre(objects, i - 1, |objects[i - 1].symbols|, d);
    }
  }

  /** The table leads from a name to the section that defines it. */
  lemma {:induction false} TableDefines(objects: seq<Object>, table: map<string, Id>, name: string, id: Id)
    requires Tabulates(table, Exported(objects, |objects|, 0))
    ensures name in table && table[name] == id <==> Defines(objects, name, id)
  {
    var definitions := Exported(objects, |objects|, 0);
    ExportedAre(objects, |objects|, 0, Definition(name, id));
    if name in table {
      var a :| 0 <= a < |definitions| && definitions[a].name == name;
      assert definitions[a] == Definition(name, table[name]);
    }
    if Definition(name, id) in definitions {
      var a :| 0 <= a < |definitions| && definitions[a] == Definition(name, id);
    }
  }

  lemma {:induction false} FollowRefers(objects: seq<Object>, table: map<string, Id>, from: Id, k: nat, to_: Id)
    requires Tabulates(table, Exported(objects, |objects|, 0))
    requires Exists(objects, from) && k < |objects[from.object_].sections[from.section]|
    ensures Follow(objects, table, from, k) == Some(to_) <==>
            Refers(objects, from.object_, objects[from.object_].sections[from.section][k], to_)
  {
    hide Defines, Tabulates, Exported;
    var target := objects[from.object_].sections[from.section][k];
    if target.ToSymbol? && target.symbol < |objects[from.object_].symbols| {
      TableDefines(objects, table, objects[from.object_].symbols[target.symbol].name, to_);
    }
  }

  lemma {:induction false} LeadsRefers(objects: seq<Object>, table: map<string, Id>, from: Id, to_: Id)
    requires Tabulates(table, Exported(objects, |objects|, 0))
    ensures Leads(objects, table, from, to_) <==> RefersFrom(objects, from, to_)
  {
    hide Follow, Refers, Tabulates, Exported;
    if Exists(objects, from) {
      forall k: nat | k < |objects[from.object_].sections[from.section]|
        ensures Follow(objects, table, from, k) == Some(to_) <==>
                Refers(objects, from.object_, objects[from.object_].sections[from.section][k], to_)
      {
        FollowRefers(objects, table, from, k, to_);
      }
    }
  }

  /** Reachable sections are the least closed set on the objects. */
  lemma {:induction false} ReachableIsLeastClosed(objects: seq<Object>, table: map<string, Id>, roots: seq<string>, kept: set<Id>)
    requires Tabulates(table, Exported(objects, |objects|, 0)) && forall i :: 0 <= i < |roots| ==> roots[i] in table
    requires forall id :: id in kept <==> Reachable(objects, table, roots, id)
    ensures IsLeast(objects, roots, kept)
  {
    hide Leads, RefersFrom, Reachable, Defines, Tabulates, Exported;
    forall a, b
      ensures Leads(objects, table, a, b) <==> RefersFrom(objects, a, b)
    {
      LeadsRefers(objects, table, a, b);
    }
    forall r, id | 0 <= r < |roots|
      ensures roots[r] in table && table[roots[r]] == id <==> Defines(objects, roots[r], id)
    {
      TableDefines(objects, table, roots[r], id);
    }
    ReachableIsClosed(objects, table, roots);
    forall other: iset<Id>, id | IsClosed(objects, roots, other) && id in kept
      ensures id in other
    {
      InEveryClosed(objects, table, roots, other, id);
    }
  }

  lemma {:induction false} InEveryClosed(objects: seq<Object>, table: map<string, Id>, roots: seq<string>, other: iset<Id>, id: Id)
    requires HasRoots(table, roots, other) && Closed(objects, table, other) && Reachable(objects, table, roots, id)
    ensures id in other
  {
    hide Leads;
    var path :| IsPath(objects, table, roots, path) && path[|path| - 1] == id;
    ReachableIsLeast(objects, table, roots, other, path);
  }

  // ---------------------------------------------------------------------------
  // The worklist
  // ---------------------------------------------------------------------------

  ghost function SectionsOf(object_: Object, index: nat): (r: set<Id>)
    ensures forall id :: id in r <==> id.object_ == index && id.section in object_.sections
  {
    var r := set section {:trigger Id(index, section)} | section in object_.sections :: Id(index, section);
    assert forall id: Id :: id.object_ == index && id.section in object_.sections ==> id == Id(index, id.section);
    r
  }

  /** All sections of the first `n` objects. */
  ghost function Universe(objects: seq<Object>, n: nat): set<Id>
    requires n <= |objects|
  {
    if n == 0 then {} else Universe(objects, n - 1) + SectionsOf(objects[n - 1], n - 1)
  }

  lemma {:induction false} InUniverse(objects: seq<Object>, id: Id, n: nat)
    requires n <= |objects| && Exists(objects, id) && id.object_ < n
    ensures id in Universe(objects, n)
  {
    if id.object_ < n - 1 {
      InUniverse(objects, id, n - 1);
    }
  }

  /** Every relocation of a kept section leads to a kept or pending one. */
  ghost predicate Covered(objects: seq<Object>, table: map<string, Id>, kept: set<Id>, pending: seq<Id>) {
    forall a, b :: a in kept && Leads(objects, table, a, b) ==> b in kept || b in pending
  }

  ghost predicate AllReachable(objects: seq<Object>, table: map<string, Id>, roots: seq<string>, kept: set<Id>,
                               pending: seq<Id>) {
    && (forall a :: a in kept ==> Reachable(objects, table, roots, a))
    && (forall a :: a in pending ==> Reachable(objects, table, roots, a))
  }

  /** The targets of one section are pushed; a bad symbol stops the link. */
  method PushTargets(objects: seq<Object>, table: map<string, Id>, id: Id, pending: seq<Id>) returns (r: Result<seq<Id>>)
    requires Exists(objects, id)
    ensures r == Malformed <==> Broken(objects, id)
    ensures r == Malformed || r.Ok?
    ensures r.Ok? ==> forall x :: x in r.value <==> x in pending || Leads(objects, table, id, x)
  {
    var next := pending;
    var targets := objects[id.object_].sections[id.section];
    for k := 0 to |targets|
      invariant forall j :: 0 <= j < k ==> !BadSymbol(objects, id, j)
      invariant forall x :: x in next <==> x in pending || exists j :: 0 <= j < k && Follow(objects, table, id, j) == Some(x)
    {
      if BadSymbol(objects, id, k) {
        return Malformed;
      }
      var target := Follow(objects, table, id, k);
      if target.Some? {
        next := next + [target.value];
      }
    }
    r := Ok(next);
  }

  method PushRoots(table: map<string, Id>, roots: seq<string>) returns (r: Result<seq<Id>>)
    ensures r == MissingRoot <==> exists i :: 0 <= i < |roots| && roots[i] !in table
    ensures r == MissingRoot || (r.Ok? && |r.value| == |roots|)
    ensures r.Ok? ==> forall i :: 0 <= i < |roots| ==> roots[i] in table && r.value[i] == table[roots[i]]
  {
    var pending: seq<Id> := [];
    for i := 0 to |roots|
      invariant |pending| == i
      invariant forall j :: 0 <= j < i ==> roots[j] in table && pending[j] == table[roots[j]]
    {
      if roots[i] !in table {
        return MissingRoot;
      }
      pending := pending + [table[roots[i]]];
    }
    r := Ok(pending);
  }

  lemma StartsInvariant(objects: seq<Object>, table: map<string, Id>, roots: seq<string>, pending: seq<Id>)
    requires |pending| == |roots| && forall i :: 0 <= i < |roots| ==> roots[i] in table && pending[i] == table[roots[i]]
    ensures Covered(objects, table, {}, pending) && AllReachable(objects, table, roots, {}, pending)
  {
    hide Reachable, Leads;
    forall a | a in pending
      ensures Reachable(objects, table, roots, a)
    {
      var i :| 0 <= i < |pending| && pending[i] == a;
      RootReachable(objects, table, roots, i);
    }
  }

  lemma PendingReachable(objects: seq<Object>, table: map<string, Id>, roots: seq<string>, kept: set<Id>,
                         pending: seq<Id>, id: Id)
    requires AllReachable(objects, table, roots, kept, pending) && id in pending
    ensures Reachable(objects, table, roots, id)
  {
  }

  lemma DropsInvariant(objects: seq<Object>, table: map<string, Id>, roots: seq<string>, kept: set<Id>,
                       before: seq<Id>, id: Id, pending: seq<Id>)
    requires Covered(objects, table, kept, before) && AllReachable(objects, table, roots, kept, before)
    requires id in kept && forall a :: a in before <==> a in pending || a == id
    ensures Covered(objects, table, kept, pending) && AllReachable(objects, table, roots, kept, pending)
  {
    hide Reachable, Leads;
  }

  lemma KeepsInvariant(objects: seq<Object>, table: map<string, Id>, roots: seq<string>, kept: set<Id>,
                       before: seq<Id>, id: Id, pending: seq<Id>)
    requires Covered(objects, table, kept, before) && AllReachable(objects, table, roots, kept, before)
    requires id in before && forall a :: a in pending ==> a in before || Leads(objects, table, id, a)
    requires forall a :: a in before || Leads(objects, table, id, a) ==> a in pending || a == id
    ensures Covered(objects, table, kept + {id}, pending) && AllReachable(objects, table, roots, kept + {id}, pending)
  {
    hide Reachable, Leads;
    forall a | a in pending
      ensures Reachable(objects, table, roots, a)
    {
      if Leads(objects, table, id, a) {
        LeadsReachable(objects, table, roots, id, a);
      }
    }
  }

  /** When nothing is pending, the kept sections are the reachable ones. */
  lemma EndsExactly(objects: seq<Object>, table: map<string, Id>, roots: seq<string>, kept: set<Id>)
    requires Covered(objects, table, kept, []) && AllReachable(objects, table, roots, kept, [])
    requires forall i :: 0 <= i < |roots| ==> roots[i] in table && table[roots[i]] in kept
    ensures forall id :: id in kept <==> Reachable(objects, table, roots, id)
  {
    hide Reachable, Leads;
    assert Closed(objects, table, (iset id | id in kept));
    forall id | Reachable(objects, table, roots, id)
      ensures id in kept
    {
      ReachesOnlyKept(objects, table, roots, kept, id);
    }
  }

  /** The set of kept sections is exactly the set of reachable ones. The link stops only when
      a name is defined twice, a root is not defined, or a reachable section is broken. */
  method ReachableSections(objects: seq<Object>, roots: seq<string>) returns (r: Result<set<Id>>, ghost table: map<string, Id>)
    ensures r == DuplicateSymbol <==> !Distinct(Exported(objects, |objects|, 0))
    ensures r != DuplicateSymbol ==> Tabulates(table, Exported(objects, |objects|, 0))
    ensures r != DuplicateSymbol ==> (r == MissingRoot <==> exists i :: 0 <= i < |roots| && roots[i] !in table)
    ensures r.Ok? ==> forall id :: id in r.value <==> Reachable(objects, table, roots, id)
    ensures r.Ok? ==> forall id :: id in r.value ==> !Broken(objects, id)
    ensures r.Ok? ==> IsLeast(objects, roots, r.value)
    ensures r == Malformed ==> exists id :: Reachable(objects, table, roots, id) && Broken(objects, id)
  {
    hide Distinct, Exported, Tabulates, Reachable, Leads, Broken, Covered, AllReachable, IsLeast;
    var definitions := CollectDefinitions(objects);
    if definitions == DuplicateSymbol {
      table := map[];
      return DuplicateSymbol, table;
    }
    var names := definitions.value;
    table := names;
    var start := PushRoots(names, roots);
    if start == MissingRoot {
      return MissingRoot, table;
    }
    var pending := start.value;
    var kept: set<Id> := {};
    ghost var all := Universe(objects, |objects|);
    StartsInvariant(objects, table, roots, pending);
    while pending != []
      invariant table == names && kept <= all && all == Universe(objects, |objects|)
      invariant forall i :: 0 <= i < |roots| ==> roots[i] in table && (table[roots[i]] in kept || table[roots[i]] in pending)
      invariant Covered(objects, table, kept, pending)
      invariant AllReachable(objects, table, roots, kept, pending)
      invariant forall id :: id in kept ==> !Broken(objects, id)
      decreases |all - kept|, |pending|
    {
      var id := pending[|pending| - 1];
      ghost var before := pending;
      pending := pending[..|pending| - 1];
      assert forall a :: a in before <==> a in pending || a == id by {
        assert before == pending + [id];
      }
      PendingReachable(objects, table, roots, kept, before, id);
      if id in kept {
        DropsInvariant(objects, table, roots, kept, before, id, pending);
      } else {
        if !Exists(objects, id) {
          MissingIsBroken(objects, id);
          return Malformed, table;
        }
        InUniverse(objects, id, |objects|);
        var pushed := PushTargets(objects, names, id, pending);
        if pushed == Malformed {
          return Malformed, table;
        }
        assert all - (kept + {id}) < all - kept by {
          assert id in all - kept && id !in all - (kept + {id});
        }
        Fewer(all - (kept + {id}), all - kept);
        KeepsInvariant(objects, table, roots, kept, before, id, pushed.value);
        kept := kept + {id};
        pending := pushed.value;
      }
    }
    EndsExactly(objects, table, roots, kept);
    ReachableIsLeastClosed(objects, table, roots, kept);
    r := Ok(kept);
  }

  lemma MissingIsBroken(objects: seq<Object>, id: Id)
    requires !Exists(objects, id)
    ensures Broken(objects, id)
  {
  }

  lemma {:induction false} Fewer(a: set<Id>, b: set<Id>)
    requires a < b
    ensures |a| < |b|
  {
    var x :| x in b && x !in a;
    if a != {} {
      var y :| y in a;
      Fewer(a - {y}, b - {y});
    }
  }

  lemma ReachesOnlyKept(objects: seq<Object>, table: map<string, Id>, roots: seq<string>, kept: set<Id>, id: Id)
    requires Closed(objects, table, (iset a | a in kept))
    requires forall i :: 0 <= i < |roots| ==> roots[i] in table && table[roots[i]] in kept
    requires Reachable(objects, table, roots, id)
    ensures id in kept
  {
    var path :| IsPath(objects, table, roots, path) && path[|path| - 1] == id;
    ReachableIsLeast(objects, table, roots, (iset a | a in kept), path);
  }
}
