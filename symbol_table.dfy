/**
 * `lexion_lang`'s scoped symbol table: a graph of tables, each with its entries sorted by name,
 * and the generator that opens scopes, inserts entries and reports shadowing and redeclaration.
 * Diagnostics go to an appended log.
 */
module SymbolTables {
  import opened Wrappers
  import opened Strings
  import opened NameSearch
  import opened ScopeChains
  import Location

  datatype EntryType = Global | Scope | Function | Parameter | LocalVar | Struct | StructMember | Temporary

  /** The `Display` of an entry type. */
  function EntryTypeName(t: EntryType): string {
    match t
    case Global => "global"
    case Function => "function"
    case Scope => "scope"
    case Parameter => "parameter"
    case LocalVar => "local variable"
    case Struct => "struct"
    case StructMember => "struct member"
    case Temporary => "temporary"
  }

  /** An entry: its kind, its name, the table it opens, where it is declared and its type's arena index. */
  datatype Entry = Entry(ty: EntryType, name: string, table: Option<nat>, range: Option<Location.SourceRange>, varType: Option<nat>)

  datatype SymbolTable = SymbolTable(name: string, entries: seq<Entry>)

  datatype Diagnostic = Warning(message: string) | Error(message: string)

  /** `Ok(())` or `Err(index)` of `insert_entry`. */
  datatype Outcome = Ok | Err(index: nat)

  function Names(entries: seq<Entry>): (r: seq<string>)
    ensures |r| == |entries| && forall k :: 0 <= k < |entries| ==> r[k] == entries[k].name
  {
    seq(|entries|, k requires 0 <= k < |entries| => entries[k].name)
  }

  /** The names of every table. */
  function TableNames(tables: seq<SymbolTable>): (r: seq<seq<string>>)
    ensures |r| == |tables| && forall n :: 0 <= n < |tables| ==> r[n] == Names(tables[n].entries)
  {
    seq(|tables|, n requires 0 <= n < |tables| => Names(tables[n].entries))
  }

  /** The graph's invariant: parents are older tables and every table's names are strictly ascending. */
  predicate GraphOk(tables: seq<SymbolTable>, parents: seq<Option<nat>>) {
    |tables| == |parents| && Forest(parents) &&
    forall n :: 0 <= n < |tables| ==> StrictlyAscending(Names(tables[n].entries))
  }

  lemma NamesInsert(es: seq<Entry>, p: nat, e: Entry)
    requires p <= |es|
    ensures Names(es[..p] + [e] + es[p..]) == Names(es)[..p] + [e.name] + Names(es)[p..]
  {
  }

  /**
   * `insert_entry` on the tables: for a table that exists, `Err` with the index the search finds
   * when it finds the name, and otherwise the entry inserted where the search stops; for one that
   * does not, `Ok` with nothing changed.
   */
  function InsertEntryOf(tables: seq<SymbolTable>, node: nat, entry: Entry): (seq<SymbolTable>, Outcome) {
    if node >= |tables| then (tables, Ok)
    else
      var es := tables[node].entries;
      match Search(Names(es), entry.name)
      case Found(i) => (tables, Err(i))
      case Vacant(p) => (tables[node := SymbolTable(tables[node].name, es[..p] + [entry] + es[p..])], Ok)
  }

  /**
   * `insert_entry` keeps every table sorted. `Err(i)` means the table already holds the name, at
   * `i`, and nothing changes; `Ok` into an existing table means the name was absent and the
   * table grew by exactly the entry; only that table changes.
   */
  lemma InsertEntryFacts(tables: seq<SymbolTable>, parents: seq<Option<nat>>, node: nat, entry: Entry)
    requires GraphOk(tables, parents)
    ensures var (tables', r) := InsertEntryOf(tables, node, entry);
            GraphOk(tables', parents) && |tables'| == |tables| &&
            (node >= |tables| ==> r == Ok && tables' == tables) &&
            (node < |tables| ==>
               var es := tables[node].entries;
               (r.Err? <==> entry.name in Names(es)) &&
               (r.Err? ==> r.index < |es| && es[r.index].name == entry.name && tables' == tables) &&
               (r.Ok? ==> tables'[node].name == tables[node].name &&
                          multiset(tables'[node].entries) == multiset(es) + multiset{entry} &&
                          forall n :: 0 <= n < |tables| && n != node ==> tables'[n] == tables[n]))
  {
    if node < |tables| {
      var es := tables[node].entries;
      var names := Names(es);
      StrictlyAscendingIsAscending(names);
      SearchVacant(names, entry.name);
      match Search(names, entry.name)
      case Found(i) =>
      case Vacant(p) =>
        var es' := es[..p] + [entry] + es[p..];
        NamesInsert(es, p, entry);
        InsertKeepsStrict(names, entry.name);
        assert es == es[..p] + es[p..];
        var (tables', _) := InsertEntryOf(tables, node, entry);
        forall n | 0 <= n < |tables'|
          ensures StrictlyAscending(Names(tables'[n].entries))
        {
          if n == node {
            assert tables'[n].entries == es';
          }
        }
    }
  }

  /**
   * `lookup` from `node`: the nearest table along the breadth-first walk of parents whose search
   * finds the identifier, the index found and the entry there.
   */
  function Lookup(tables: seq<SymbolTable>, parents: seq<Option<nat>>, node: nat, id: string): (r: Option<(nat, nat, Entry)>)
    requires GraphOk(tables, parents) && node < |tables|
    ensures r.Some? ==> r.value.0 < |tables| && r.value.1 < |tables[r.value.0].entries| &&
                        r.value.2 == tables[r.value.0].entries[r.value.1] && r.value.2.name == id
  {
    match FindOnChain(TableNames(tables), parents, node, id)
    case None => None
    case Some((n, i)) => Some((n, i, tables[n].entries[i]))
  }

  /**
   * `lookup` finds nothing exactly when no table from `node` up holds the identifier; what it
   * finds lies in the nearest one that does.
   */
  lemma LookupIsNearest(tables: seq<SymbolTable>, parents: seq<Option<nat>>, node: nat, id: string)
    requires GraphOk(tables, parents) && node < |tables|
    ensures Lookup(tables, parents, node, id).None? <==>
            forall n :: n in Ancestors(parents, node) ==> id !in Names(tables[n].entries)
    ensures var c := Ancestors(parents, node);
            var r := Lookup(tables, parents, node, id);
            r.Some? ==> exists k :: 0 <= k < |c| && c[k] == r.value.0 && forall j :: 0 <= j < k ==> id !in Names(tables[c[j]].entries)
  {
    var names := TableNames(tables);
    forall n | 0 <= n < |names|
      ensures Ascending(names[n])
    {
      StrictlyAscendingIsAscending(names[n]);
    }
    FindOnChainIsNearest(names, parents, node, id);
  }

  /**
   * The log `insert` adds for `entry` in scope `current`: a shadowing warning naming the entry
   * `lookup` finds when that entry lies in another scope, then a redeclaration error naming the
   * entry already at `insert_entry`'s `Err` index.
   */
  function InsertLog(tables: seq<SymbolTable>, parents: seq<Option<nat>>, current: nat, entry: Entry): seq<Diagnostic>
    requires GraphOk(tables, parents) && current < |tables|
  {
    var found := Lookup(tables, parents, current, entry.name);
    var warning :=
      if found.Some? && found.value.0 != current
      then [Warning("Shadowed " + EntryTypeName(found.value.2.ty) + " '" + found.value.2.name + "'")]
      else [];
    var outcome := InsertEntryOf(tables, current, entry).1;
    var error :=
      if outcome.Err? then [Error("Multiply declared identifier '" + tables[current].entries[outcome.index].name + "'")]
      else [];
    warning + error
  }

  /**
   * `insert` reports a redeclaration, and nothing else, exactly when the current scope already
   * holds the name; it warns about shadowing, and nothing else, exactly when the name is not in
   * the current scope but in one of its ancestors, naming the nearest such entry; otherwise it
   * reports nothing.
   */
  lemma InsertLogCases(tables: seq<SymbolTable>, parents: seq<Option<nat>>, current: nat, entry: Entry)
    requires GraphOk(tables, parents) && current < |tables|
    ensures var log := InsertLog(tables, parents, current, entry);
            var here := entry.name in Names(tables[current].entries);
            var above := exists n :: n in Ancestors(parents, current) && entry.name in Names(tables[n].entries);
            (here ==> log == [Error("Multiply declared identifier '" + entry.name + "'")]) &&
            (!here && above ==>
               var found := Lookup(tables, parents, current, entry.name);
               found.Some? && found.value.0 != current &&
               log == [Warning("Shadowed " + EntryTypeName(found.value.2.ty) + " '" + entry.name + "'")]) &&
            (!above ==> log == [])
  {
    var c := Ancestors(parents, current);
    LookupIsNearest(tables, parents, current, entry.name);
    InsertEntryFacts(tables, parents, current, entry);
    var found := Lookup(tables, parents, current, entry.name);
    var here := entry.name in Names(tables[current].entries);
    if here {
      var names := Names(tables[current].entries);
      StrictlyAscendingIsAscending(names);
      SearchVacant(names, entry.name);
      assert TableNames(tables)[current] == names;
      assert found.Some? && found.value.0 == current;
    } else if found.Some? {
      assert found.value.0 != current;
    }
  }

  /** The name `exec` gives the scope of a block opened inside `t`: `t`'s name, a dot, and `t`'s entry count. */
  function BlockScopeName(t: SymbolTable): string {
    t.name + "." + NatToString(|t.entries|)
  }

  /** Blocks opened in the same table at different entry counts get different names. */
  lemma BlockScopeNamesDiffer(t: SymbolTable, u: SymbolTable)
    requires t.name == u.name && |t.entries| != |u.entries|
    ensures BlockScopeName(t) != BlockScopeName(u)
  {
    if BlockScopeName(t) == BlockScopeName(u) {
      var prefix := t.name + ".";
      assert BlockScopeName(t) == prefix + NatToString(|t.entries|);
      assert BlockScopeName(u) == prefix + NatToString(|u.entries|);
      assert NatToString(|t.entries|) == BlockScopeName(t)[|prefix|..];
      assert NatToString(|u.entries|) == BlockScopeName(u)[|prefix|..];
      NatToStringInjective(|t.entries|, |u.entries|);
    }
  }

  class SymbolTableGraph {
    var root: nat
    var tables: seq<SymbolTable>
    /** The one successor of each table in the graph, if any. */
    var parents: seq<Option<nat>>

    ghost predicate Valid()
      reads this
    {
      GraphOk(tables, parents)
    }

    /** The default, empty graph. */
    constructor ()
      ensures Valid() && root == 0 && tables == [] && parents == []
    {
      root, tables, parents := 0, [], [];
    }

    /** `insert_entry`: see `InsertEntryOf`. */
    method InsertEntry(node: nat, entry: Entry) returns (r: Outcome)
      requires Valid()
      modifies this
      ensures Valid()
      ensures (tables, r) == InsertEntryOf(old(tables), node, entry)
      ensures root == old(root) && parents == old(parents)
    {
      InsertEntryFacts(tables, parents, node, entry);
      if node < |tables| {
        var es := tables[node].entries;
        var found := Search(Names(es), entry.name);
        if found.Found? {
          return Err(found.index);
        }
        tables := tables[node := SymbolTable(tables[node].name, es[..found.index] + [entry] + es[found.index..])];
      }
      return Ok;
    }

    /** `add_node` of an empty table, and with a parent the edge from it to that parent. */
    method AddTable(name: string, parent: Option<nat>) returns (n: nat)
      requires Valid() && (parent.Some? ==> parent.value < |tables|)
      modifies this
      ensures Valid()
      ensures n == old(|tables|) && tables == old(tables) + [SymbolTable(name, [])] && parents == old(parents) + [parent]
      ensures root == old(root)
    {
      AddKeepsForest(parents, parent);
      n := |tables|;
      tables := tables + [SymbolTable(name, [])];
      parents := parents + [parent];
      assert forall m :: 0 <= m < n ==> tables[m] == old(tables)[m];
    }
  }

  class SymbolTableGenerator {
    const table: SymbolTableGraph
    var currentScope: nat
    var diagnostics: seq<Diagnostic>

    ghost predicate Valid()
      reads this, table
    {
      table.Valid() && (if |table.tables| == 0 then currentScope == 0 else currentScope < |table.tables|)
    }

    /** The default generator: an empty graph, scope 0, nothing reported. */
    constructor ()
      ensures Valid() && fresh(table) && table.tables == [] && table.root == 0 && currentScope == 0 && diagnostics == []
    {
      table := new SymbolTableGraph();
      currentScope := 0;
      diagnostics := [];
    }

    /** `parent_scope`: to the current scope's successor; where there is none, nothing changes. */
    method ParentScope()
      requires Valid()
      modifies this
      ensures Valid() && diagnostics == old(diagnostics)
      ensures currentScope ==
              if currentScope < |table.tables| && table.parents[old(currentScope)].Some? then table.parents[old(currentScope)].value
              else old(currentScope)
    {
      if currentScope < |table.tables| && table.parents[currentScope].Some? {
        currentScope := table.parents[currentScope].value;
      }
    }

    /** `lookup` from the current scope. */
    function LookupHere(id: string): (r: Option<(nat, nat, Entry)>)
      requires Valid() && |table.tables| > 0
      reads this, table
    {
      Lookup(table.tables, table.parents, currentScope, id)
    }

    /**
     * `insert`: the entry goes into the current scope, and the log gets `InsertLog`'s shadowing
     * warning and redeclaration error. The lookup `insert` makes needs a table to start from.
     */
    method Insert(entry: Entry)
      requires Valid() && |table.tables| > 0
      modifies this, table
      ensures Valid() && currentScope == old(currentScope) && table.parents == old(table.parents) && table.root == old(table.root)
      ensures table.tables == InsertEntryOf(old(table.tables), currentScope, entry).0
      ensures diagnostics == old(diagnostics) + InsertLog(old(table.tables), old(table.parents), currentScope, entry)
    {
      var found := LookupHere(entry.name);
      var warning := [];
      if found.Some? && found.value.0 != currentScope {
        var prev := found.value.2;
        warning := [Warning("Shadowed " + EntryTypeName(prev.ty) + " '" + prev.name + "'")];
      }
      diagnostics := diagnostics + warning;
      var before := table.tables;
      var r := table.InsertEntry(currentScope, entry);
      if r.Err? {
        diagnostics := diagnostics + [Error("Multiply declared identifier '" + before[currentScope].entries[r.index].name + "'")];
      }
    }

    /**
     * `create_scope`: a new table named after the entry. Unless it is table 0, it gets an edge to
     * the current scope, and the entry, pointing at it, is inserted into the current scope. The
     * new table becomes the current scope in either case.
     */
    method CreateScope(entry: Entry)
      requires Valid()
      modifies this, table
      ensures Valid() && table.root == old(table.root)
      ensures var scope := old(|table.tables|);
              currentScope == scope && |table.tables| == scope + 1 && table.tables[scope] == SymbolTable(entry.name, []) &&
              (scope == 0 ==> table.parents == [None] && diagnostics == old(diagnostics)) &&
              (scope > 0 ==>
                 var tables := old(table.tables) + [SymbolTable(entry.name, [])];
                 var parents := old(table.parents) + [Some(old(currentScope))];
                 var scoped := entry.(table := Some(scope));
                 table.parents == parents &&
                 table.tables == InsertEntryOf(tables, old(currentScope), scoped).0 &&
                 diagnostics == old(diagnostics) + InsertLog(tables, parents, old(currentScope), scoped))
    {
      var scope := table.AddTable(entry.name, if |table.tables| == 0 then None else Some(currentScope));
      if scope != 0 {
        Insert(entry.(table := Some(scope)));
        InsertEntryFacts(old(table.tables) + [SymbolTable(entry.name, [])], table.parents, old(currentScope), entry.(table := Some(scope)));
      }
      currentScope := scope;
    }

    /** The root scope `exec` opens first: a global entry named `root`; the graph's root becomes the current scope. */
    method CreateRoot()
      requires Valid()
      modifies this, table
      ensures Valid() && table.root == currentScope == old(|table.tables|)
      ensures |table.tables| == old(|table.tables|) + 1 && table.tables[currentScope] == SymbolTable("root", [])
    {
      CreateScope(Entry(Global, "root", None, None, None));
      table.root := currentScope;
    }

    /**
     * What `exec` does on entering a block: it opens a scope named by `BlockScopeName` of the
     * current table, declared at the block's range. The current table must exist.
     */
    method EnterBlock(range: Location.SourceRange)
      requires Valid() && |table.tables| > 0
      modifies this, table
      ensures Valid() && table.root == old(table.root)
      ensures currentScope == old(|table.tables|) && table.parents[currentScope] == Some(old(currentScope))
      ensures table.tables[currentScope] == SymbolTable(BlockScopeName(old(table.tables)[old(currentScope)]), [])
    {
      var t := table.tables[currentScope];
      CreateScope(Entry(Scope, BlockScopeName(t), None, Some(range), None));
    }
  }
}
