/**
 * The older symbol-table generator of `lexion_lang`: a graph of tables whose entries are kept
 * in name order by binary-search insertion, with duplicate names accepted. Its `create_scope`
 * appends the new scope's entry to the parent table with `push` instead; that is modelled as
 * written, next to the sorted insertion the rest of the generator relies on.
 */
module OldSymbolTables {
  import opened Wrappers
  import opened Strings
  import opened NameSearch
  import opened ScopeChains
  import opened Ast
  import opened Visitor
  import Location

  datatype OldEntry = OldEntry(name: string, table: Option<nat>, range: Option<Location.SourceRange>)

  datatype OldTable = OldTable(name: string, entries: seq<OldEntry>)

  function OldNames(entries: seq<OldEntry>): (r: seq<string>)
    ensures |r| == |entries| && forall k :: 0 <= k < |entries| ==> r[k] == entries[k].name
  {
    seq(|entries|, k requires 0 <= k < |entries| => entries[k].name)
  }

  function OldTableNames(tables: seq<OldTable>): (r: seq<seq<string>>)
    ensures |r| == |tables| && forall n :: 0 <= n < |tables| ==> r[n] == OldNames(tables[n].entries)
  {
    seq(|tables|, n requires 0 <= n < |tables| => OldNames(tables[n].entries))
  }

  /** `insert`'s placement: at the index the search answers, whether it found the name or not. */
  function InsertAt(entries: seq<OldEntry>, entry: OldEntry): seq<OldEntry> {
    var p := Search(OldNames(entries), entry.name).index;
    entries[..p] + [entry] + entries[p..]
  }

  /** `create_scope`'s placement as written: at the end. */
  function PushAt(entries: seq<OldEntry>, entry: OldEntry): (r: seq<OldEntry>)
    ensures |r| == |entries| + 1 && r[|entries|] == entry && r[..|entries|] == entries
  {
    entries + [entry]
  }

  /**
   * Inserting keeps ascending names ascending, adds exactly the entry, and leaves a table in
   * which the search finds the name.
   */
  lemma InsertAtFacts(entries: seq<OldEntry>, entry: OldEntry)
    requires Ascending(OldNames(entries))
    ensures var es := InsertAt(entries, entry);
            Ascending(OldNames(es)) && multiset(es) == multiset(entries) + multiset{entry} &&
            Search(OldNames(es), entry.name).Found?
  {
    var names := OldNames(entries);
    var p := Search(names, entry.name).index;
    var es := InsertAt(entries, entry);
    assert OldNames(es) == names[..p] + [entry.name] + names[p..];
    InsertKeepsAscending(names, entry.name);
    assert entries == entries[..p] + entries[p..];
    assert OldNames(es)[p] == entry.name;
    SearchVacant(OldNames(es), entry.name);
  }

  /** The entries a `VarDeclStmt` contributes: one per declarator, in order, with no table and no range. */
  function DeclEntries(decls: seq<VarDecl>): (r: seq<OldEntry>)
    ensures |r| == |decls| && forall k :: 0 <= k < |decls| ==> r[k] == OldEntry(decls[k].name, None, None)
  {
    seq(|decls|, k requires 0 <= k < |decls| => OldEntry(decls[k].name, None, None))
  }

  /** Several entries inserted one after the other. */
  function InsertAll(entries: seq<OldEntry>, news: seq<OldEntry>): seq<OldEntry>
    decreases |news|
  {
    if |news| == 0 then entries else InsertAll(InsertAt(entries, news[0]), news[1..])
  }

  lemma {:induction false} InsertAllSnoc(entries: seq<OldEntry>, news: seq<OldEntry>, e: OldEntry)
    ensures InsertAll(entries, news + [e]) == InsertAt(InsertAll(entries, news), e)
    decreases |news|
  {
    if |news| == 0 {
      assert news + [e] == [e];
      assert [e][1..] == [];
    } else {
      assert (news + [e])[0] == news[0] && (news + [e])[1..] == news[1..] + [e];
      InsertAllSnoc(InsertAt(entries, news[0]), news[1..], e);
    }
  }

  /** Inserting several entries keeps names ascending and adds exactly those entries, each then found. */
  lemma {:induction false} InsertAllFacts(entries: seq<OldEntry>, news: seq<OldEntry>)
    requires Ascending(OldNames(entries))
    ensures var es := InsertAll(entries, news);
            Ascending(OldNames(es)) && multiset(es) == multiset(entries) + multiset(news) &&
            forall k :: 0 <= k < |news| ==> news[k].name in OldNames(es)
    decreases |news|
  {
    if |news| > 0 {
      InsertAtFacts(entries, news[0]);
      var mid := InsertAt(entries, news[0]);
      InsertAllFacts(mid, news[1..]);
      assert news == [news[0]] + news[1..];
      var es := InsertAll(entries, news);
      assert news[0] in multiset(es) by {
        assert news[0] in multiset(mid);
      }
      forall k | 0 <= k < |news|
        ensures news[k].name in OldNames(es)
      {
        if k == 0 {
          var i :| 0 <= i < |es| && es[i] == news[0];
          assert OldNames(es)[i] == news[0].name;
        } else {
          assert news[k] == news[1..][k - 1];
        }
      }
    }
  }

  /**
   * The breadth-first `lookup` over tables whose names the search is run on: the entry of the
   * nearest table along the ancestors where the search finds the identifier.
   */
  function FindEntry(tables: seq<OldTable>, parents: seq<Option<nat>>, node: nat, id: string): (r: Option<OldEntry>)
    requires |tables| == |parents| && Forest(parents) && node < |tables|
    ensures r.Some? ==> r.value.name == id
  {
    match FindOnChain(OldTableNames(tables), parents, node, id)
    case None => None
    case Some((n, i)) => Some(tables[n].entries[i])
  }

  /**
   * With every table in name order, `lookup` finds nothing exactly when no table from `node` up
   * holds the identifier.
   */
  lemma FindEntryIsComplete(tables: seq<OldTable>, parents: seq<Option<nat>>, node: nat, id: string)
    requires |tables| == |parents| && Forest(parents) && node < |tables|
    requires forall n :: 0 <= n < |tables| ==> Ascending(OldNames(tables[n].entries))
    ensures FindEntry(tables, parents, node, id).None? <==>
            forall n :: n in Ancestors(parents, node) ==> id !in OldNames(tables[n].entries)
  {
    FindOnChainIsNearest(OldTableNames(tables), parents, node, id);
  }

  /**
   * After `var b; var c; fn a` in the root scope, the root table holds `b`, `c`, `a` in that
   * order: the pushed scope entry breaks the name order, and from inside `a` the search misses
   * `a` although it is declared in the root. With the entry inserted in order it is found.
   */
  lemma PushBreaksLookup()
    ensures var root := InsertAll([], [OldEntry("b", None, None), OldEntry("c", None, None)]);
            var pushed := PushAt(root, OldEntry("a", Some(1), None));
            OldNames(pushed) == ["b", "c", "a"] && !Ascending(OldNames(pushed)) &&
            "a" in OldNames(pushed) &&
            FindEntry([OldTable("root", pushed), OldTable("a", [])], [None, Some(0)], 1, "a").None? &&
            FindEntry([OldTable("root", InsertAt(root, OldEntry("a", Some(1), None))), OldTable("a", [])], [None, Some(0)], 1, "a").Some?
  {
    var b, c, a := OldEntry("b", None, None), OldEntry("c", None, None), OldEntry("a", Some(1), None);
    RootHoldsBC();
    assert PushAt([b, c], a) == [b, c, a];
    assert OldNames([b, c, a]) == ["b", "c", "a"];
    assert !Less("c", "a");
    PushedEntryMissed();
    InsertedEntryFound();
  }

  /** The root table after `var b; var c;`. */
  lemma RootHoldsBC()
    ensures InsertAll([], [OldEntry("b", None, None), OldEntry("c", None, None)]) == [OldEntry("b", None, None), OldEntry("c", None, None)]
  {
    var b, c := OldEntry("b", None, None), OldEntry("c", None, None);
    assert InsertAt([], b) == [b] by {
      assert Search(OldNames([]), "b") == Vacant(0);
    }
    assert InsertAt([b], c) == [b, c] by {
      assert OldNames([b]) == ["b"];
      assert Less("b", "c");
      assert Search(["b"], "c") == Vacant(1);
    }
    assert InsertAll([], [b, c]) == InsertAll([b], [c]) by {
      assert [b, c][1..] == [c];
    }
    assert InsertAll([b], [c]) == [b, c] by {
      assert [c][1..] == [];
    }
  }

  /** From scope `a`, the search misses `a` at the end of the root table `b`, `c`, `a`. */
  lemma PushedEntryMissed()
    ensures FindEntry([OldTable("root", [OldEntry("b", None, None), OldEntry("c", None, None), OldEntry("a", Some(1), None)]), OldTable("a", [])], [None, Some(0)], 1, "a").None?
  {
    var b, c, a := OldEntry("b", None, None), OldEntry("c", None, None), OldEntry("a", Some(1), None);
    assert OldNames([b, c, a]) == ["b", "c", "a"];
    assert Less("a", "c");
    assert !Less("c", "a") && !Less("b", "a");
    assert SearchIn(["b", "c", "a"], "a", 0, 1) == SearchIn(["b", "c", "a"], "a", 0, 0) == Vacant(0);
    assert Search(["b", "c", "a"], "a") == SearchIn(["b", "c", "a"], "a", 0, 1);
    var tables := [OldTable("root", [b, c, a]), OldTable("a", [])];
    assert OldTableNames(tables) == [["b", "c", "a"], []];
    assert Search([], "a") == Vacant(0);
  }

  /** Inserted in order, the entry goes first in the root table and the search finds it. */
  lemma InsertedEntryFound()
    ensures var b, c, a := OldEntry("b", None, None), OldEntry("c", None, None), OldEntry("a", Some(1), None);
            FindEntry([OldTable("root", InsertAt([b, c], a)), OldTable("a", [])], [None, Some(0)], 1, "a").Some?
  {
    var b, c, a := OldEntry("b", None, None), OldEntry("c", None, None), OldEntry("a", Some(1), None);
    assert SearchIn(["b", "c"], "a", 0, 1) == SearchIn(["b", "c"], "a", 0, 0) == Vacant(0) by {
      assert Less("a", "b");
    }
    assert Search(OldNames([b, c]), "a") == Vacant(0) by {
      assert OldNames([b, c]) == ["b", "c"];
    }
    assert InsertAt([b, c], a) == [a, b, c];
    assert OldNames([a, b, c]) == ["a", "b", "c"];
    assert Search(["a", "b", "c"], "a") == Found(0) by {
      assert SearchIn(["a", "b", "c"], "a", 0, 1) == Found(0);
    }
    assert OldTableNames([OldTable("root", [a, b, c]), OldTable("a", [])]) == [["a", "b", "c"], []];
    assert Search([], "a") == Vacant(0);
  }

  /** The tables with `news` inserted one after the other into table `n`, when there is one. */
  function WithInserted(ts: seq<OldTable>, n: nat, news: seq<OldEntry>): (r: seq<OldTable>)
    ensures |r| == |ts| && forall m :: 0 <= m < |ts| && m != n ==> r[m] == ts[m]
    ensures forall m :: 0 <= m < |ts| ==> r[m].name == ts[m].name
  {
    if n < |ts| then ts[n := OldTable(ts[n].name, InsertAll(ts[n].entries, news))] else ts
  }

  class OldSymbolTableGenerator {
    var tables: seq<OldTable>
    /** The one successor of each table in the graph, if any. */
    var parents: seq<Option<nat>>
    var currentScope: nat

    ghost predicate Shaped()
      reads this
    {
      |tables| == |parents| && Forest(parents) &&
      (if |tables| == 0 then currentScope == 0 else currentScope < |tables|)
    }

    /** Every table's names in order, which the searches rely on. */
    ghost predicate Sorted()
      reads this
    {
      forall n :: 0 <= n < |tables| ==> Ascending(OldNames(tables[n].entries))
    }

    /** The default generator: an empty graph and scope 0. */
    constructor ()
      ensures Shaped() && Sorted() && tables == [] && parents == [] && currentScope == 0
    {
      tables, parents, currentScope := [], [], 0;
    }

    /** `insert`: into the current table at the search's index; nothing when there is no current table. */
    method Insert(entry: OldEntry)
      requires Shaped()
      modifies this
      ensures Shaped() && parents == old(parents) && currentScope == old(currentScope)
      ensures tables == if currentScope < |tables| then old(tables)[currentScope := OldTable(old(tables)[currentScope].name, InsertAt(old(tables)[currentScope].entries, entry))] else old(tables)
      ensures old(Sorted()) ==> Sorted()
    {
      if currentScope < |tables| {
        var t := tables[currentScope];
        var p := Search(OldNames(t.entries), entry.name).index;
        if Sorted() {
          InsertAtFacts(t.entries, entry);
        }
        tables := tables[currentScope := OldTable(t.name, t.entries[..p] + [entry] + t.entries[p..])];
      }
    }

    /**
     * `create_scope` as written: a new table; unless it is table 0, an edge to the current scope
     * and the scope's entry pushed at the end of the current table. The new table becomes the
     * current scope. This does not keep the tables sorted (see `PushBreaksLookup`).
     */
    method CreateScopeAsWritten(name: string)
      requires Shaped()
      modifies this
      ensures Shaped() && currentScope == old(|tables|)
      ensures var scope := old(|tables|);
              var grown := old(tables) + [OldTable(name, [])];
              parents == old(parents) + [if scope == 0 then None else Some(old(currentScope))] &&
              tables == if scope == 0 then grown
                        else grown[old(currentScope) := OldTable(grown[old(currentScope)].name, PushAt(grown[old(currentScope)].entries, OldEntry(name, Some(scope), None)))]
    {
      var scope := |tables|;
      AddKeepsForest(parents, if scope == 0 then None else Some(currentScope));
      tables := tables + [OldTable(name, [])];
      parents := parents + [if scope == 0 then None else Some(currentScope)];
      if scope != 0 {
        var t := tables[currentScope];
        tables := tables[currentScope := OldTable(t.name, t.entries + [OldEntry(name, Some(scope), None)])];
      }
      currentScope := scope;
    }

    /** `create_scope` with the scope's entry inserted in order, which keeps the tables sorted. */
    method CreateScope(name: string)
      requires Shaped()
      modifies this
      ensures Shaped() && currentScope == old(|tables|)
      ensures var scope := old(|tables|);
              var grown := old(tables) + [OldTable(name, [])];
              parents == old(parents) + [if scope == 0 then None else Some(old(currentScope))] &&
              tables == if scope == 0 then grown
                        else grown[old(currentScope) := OldTable(grown[old(currentScope)].name, InsertAt(grown[old(currentScope)].entries, OldEntry(name, Some(scope), None)))]
      ensures old(Sorted()) ==> Sorted()
    {
      var scope := |tables|;
      AddKeepsForest(parents, if scope == 0 then None else Some(currentScope));
      tables := tables + [OldTable(name, [])];
      parents := parents + [if scope == 0 then None else Some(currentScope)];
      if scope != 0 {
        Insert(OldEntry(name, Some(scope), None));
      }
      currentScope := scope;
    }

    /** `lookup` from the current scope. */
    function Lookup(id: string): (r: Option<OldEntry>)
      requires Shaped() && |tables| > 0
      reads this
      ensures r.Some? ==> r.value.name == id
    {
      FindEntry(tables, parents, currentScope, id)
    }

    /** A `VarDeclStmt` handled by `process`: one `insert` per declarator, in order. */
    method DeclareVars(decls: seq<VarDecl>)
      requires Shaped()
      modifies this
      ensures Shaped() && parents == old(parents) && currentScope == old(currentScope)
      ensures tables == WithInserted(old(tables), currentScope, DeclEntries(decls))
      ensures old(Sorted()) ==> Sorted()
    {
      ghost var news := DeclEntries(decls);
      ghost var t0 := tables;
      ghost var sorted0 := Sorted();
      for k := 0 to |decls|
        invariant Shaped() && parents == old(parents) && currentScope == old(currentScope)
        invariant tables == WithInserted(t0, currentScope, news[..k])
        invariant sorted0 ==> Sorted()
      {
        if currentScope < |tables| {
          InsertAllSnoc(t0[currentScope].entries, news[..k], news[k]);
          assert news[..k + 1] == news[..k] + [news[k]];
        }
        Insert(OldEntry(decls[k].name, None, None));
      }
      assert news[..|decls|] == news;
    }

    /**
     * `process`: the root scope, then, for each node of the walk taken once in preorder, a scope
     * for each function declaration and the declared names of each variable declaration. No scope
     * is ever left. With the corrected `create_scope`, every table stays sorted.
     */
    method Process(ast: seq<Stmt>)
      requires Shaped() && Sorted()
      modifies this
      ensures Shaped() && Sorted() && |tables| == old(|tables|) + 1 + |Scopes(Visit(ast))|
      ensures tables[old(|tables|)].name == "root"
    {
      CreateScope("root");
      var root := currentScope;
      var events := Visit(ast);
      for k := 0 to |events|
        invariant Shaped() && Sorted() && |tables| == old(|tables|) + 1 + |Scopes(events[..k])|
        invariant root < |tables| && tables[root].name == "root"
      {
        assert events[..k + 1] == events[..k] + [events[k]];
        ScopesAppend(events[..k], events[k]);
        Handle(events[k]);
      }
      assert events[..|events|] == events;
    }

    /**
     * The visitor's callback for one event: a scope for a function declaration and the declared
     * names of a variable declaration, on the way down; nothing otherwise. Table names stay.
     */
    method Handle(e: Event)
      requires Shaped() && Sorted()
      modifies this
      ensures Shaped() && Sorted()
      ensures |tables| == old(|tables|) + if e.traversal == Preorder && e.node.StmtNode? && e.node.stmt.FuncDeclStmt? then 1 else 0
      ensures forall n :: 0 <= n < old(|tables|) ==> tables[n].name == old(tables[n].name)
    {
      if e.traversal == Preorder && e.node.StmtNode? {
        match e.node.stmt {
          case FuncDeclStmt(name, _, _, _) =>
            CreateScope(name);
          case VarDeclStmt(decls) =>
            DeclareVars(decls);
          case _ =>
        }
      }
    }
  }

  /** The scope names `process` opens for a run of events: one per function declaration reached in preorder. */
  function Scopes(events: seq<Event>): seq<string> {
    if |events| == 0 then []
    else
      var last := events[|events| - 1];
      Scopes(events[..|events| - 1]) +
      if last.traversal == Preorder && last.node.StmtNode? && last.node.stmt.FuncDeclStmt? then [last.node.stmt.name] else []
  }

  lemma ScopesAppend(events: seq<Event>, e: Event)
    ensures Scopes(events + [e]) == Scopes(events) + if e.traversal == Preorder && e.node.StmtNode? && e.node.stmt.FuncDeclStmt? then [e.node.stmt.name] else []
  {
    assert (events + [e])[..|events|] == events;
  }
}
