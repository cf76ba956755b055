/** The object writer's index: which symbols, types, literals and imports an object
    contains, and the addresses by which its code refers to them. */
module SymbolIndex {
  import opened BigEndian
  import opened Symbols
  import opened TypeDefs
  import opened Wrappers

  type Literal = string

  datatype SymbolEntry = DescriptorEntry(index: nat) | LinkEntry(index: nat)
  datatype SymbolDefinition = SymbolDefinition(section: Section, index: nat)
  datatype RequestedLink = RequestedLink(section: Section, url: Url)

  datatype Index = Index(
    vectors: map<Section, seq<Symbol>>,
    symbols: seq<SymbolDefinition>,
    links: seq<RequestedLink>,
    entries: map<Url, SymbolEntry>,
    imports: seq<string>,
    importOffsets: map<string, nat>,
    literals: seq<Literal>,
    literalOffsets: map<Literal, nat>,
    types: seq<TypeDef>,
    typeOffsets: map<TypeDef, nat>)
  {
    function Vector(section: Section): seq<Symbol> {
      if section in vectors then vectors[section] else []
    }
  }

  const EMPTY := Index(map[], [], [], map[], [], map[], [], map[], [], map[])

  // ---------- insertion ----------

  function InsertImport(idx: Index, location: string): Index {
    if location in idx.importOffsets then idx
    else idx.(imports := idx.imports + [location], importOffsets := idx.importOffsets[location := |idx.imports|])
  }

  predicate Tracked(kind: SymbolType) {
    LinkageOf(kind) != NoSection
  }

  function AddLink(idx: Index, symbol: Symbol): Index {
    idx.(links := idx.links + [RequestedLink(LinkageOf(symbol.kind), symbol.url)],
         entries := idx.entries[symbol.url := LinkEntry(|idx.links|)])
  }

  function AddDefinition(idx: Index, symbol: Symbol): Index {
    var section := LinkageOf(symbol.kind);
    idx.(vectors := idx.vectors[section := idx.Vector(section) + [symbol]],
         symbols := idx.symbols + [SymbolDefinition(section, |idx.Vector(section)|)],
         entries := idx.entries[symbol.url := DescriptorEntry(|idx.symbols|)])
  }

  /** Adds a symbol under its own url, as a link if it is imported and as a definition otherwise. */
  function AddSymbol(idx: Index, symbol: Symbol): Index {
    if symbol.imported then AddLink(InsertImport(idx, symbol.url.location), symbol) else AddDefinition(idx, symbol)
  }

  /** The second component says whether the url was there already. */
  function InsertSymbol(idx: Index, url: Url, symbol: Symbol): Result<(Index, bool)> {
    if url in idx.entries then Ok((idx, true))
    else if !Tracked(symbol.kind) then Err(AssemblerInvariant)
    else Ok((AddSymbol(idx, symbol), false))
  }

  function InsertType(idx: Index, t: TypeDef): Index {
    if t in idx.typeOffsets then idx
    else idx.(types := idx.types + [t], typeOffsets := idx.typeOffsets[t := |idx.types|])
  }

  function TouchLiteral(idx: Index, literal: Literal): Index {
    if literal in idx.literalOffsets then idx
    else idx.(literals := idx.literals + [literal], literalOffsets := idx.literalOffsets[literal := |idx.literals|])
  }

  // ---------- lookup ----------

  function SectionAddress(idx: Index, url: Url, section: Section): Result<U32> {
    if url !in idx.entries then Err(AssemblerInvariant)
    else match idx.entries[url]
      case DescriptorEntry(k) =>
        if |idx.symbols| <= k || idx.symbols[k].section != section then Err(AssemblerInvariant)
        else Ok(DescriptorAddress(idx.symbols[k].index))
      case LinkEntry(k) =>
        if |idx.links| <= k || idx.links[k].section != section then Err(AssemblerInvariant)
        else Ok(LinkAddress(k))
  }

  function LiteralAddress(idx: Index, literal: Literal): Result<U32> {
    if literal in idx.literalOffsets then Ok(ToU32(idx.literalOffsets[literal])) else Err(AssemblerInvariant)
  }

  function TypeOffset(idx: Index, t: TypeDef): Result<U32> {
    if t in idx.typeOffsets then Ok(ToU32(idx.typeOffsets[t])) else Err(AssemblerInvariant)
  }

  /** The section a url was entered under. */
  function EntrySection(idx: Index, url: Url): Option<Section> {
    if url !in idx.entries then None
    else match idx.entries[url]
      case DescriptorEntry(k) => if k < |idx.symbols| then Some(idx.symbols[k].section) else None
      case LinkEntry(k) => if k < |idx.links| then Some(idx.links[k].section) else None
  }

  // ---------- the index agrees with its vectors ----------

  /** The definition at `k` denotes a symbol of its section vector, whose url is entered as `k`. */
  ghost predicate DefinitionOwned(idx: Index, k: nat)
    requires k < |idx.symbols|
  {
    var d := idx.symbols[k];
    var vector := idx.Vector(d.section);
    && d.index < |vector|
    && LinkageOf(vector[d.index].kind) == d.section
    && vector[d.index].url in idx.entries
    && idx.entries[vector[d.index].url] == DescriptorEntry(k)
  }

  ghost predicate LinkOwned(idx: Index, k: nat)
    requires k < |idx.links|
  {
    var l := idx.links[k];
    && l.url in idx.entries
    && idx.entries[l.url] == LinkEntry(k)
    && l.url.location in idx.importOffsets
  }

  /** The entry of a url leads back to the url. */
  ghost predicate EntryOwned(idx: Index, url: Url)
    requires url in idx.entries
  {
    match idx.entries[url]
    case DescriptorEntry(k) =>
      && k < |idx.symbols|
      && idx.symbols[k].index < |idx.Vector(idx.symbols[k].section)|
      && idx.Vector(idx.symbols[k].section)[idx.symbols[k].index].url == url
    case LinkEntry(k) => k < |idx.links| && idx.links[k].url == url
  }

  /** Every symbol of a section vector has a definition that denotes it. */
  ghost predicate SymbolDefined(idx: Index, section: Section, j: nat)
    requires j < |idx.Vector(section)|
  {
    var url := idx.Vector(section)[j].url;
    && url in idx.entries
    && idx.entries[url].DescriptorEntry?
    && idx.entries[url].index < |idx.symbols|
    && idx.symbols[idx.entries[url].index] == SymbolDefinition(section, j)
  }

  ghost predicate TableAgrees<K>(keys: seq<K>, offsets: map<K, nat>) {
    && (forall k :: k in offsets ==> offsets[k] < |keys| && keys[offsets[k]] == k)
    && (forall i :: 0 <= i < |keys| ==> keys[i] in offsets && offsets[keys[i]] == i)
  }

  ghost predicate Consistent(idx: Index) {
    && (forall k :: 0 <= k < |idx.symbols| ==> DefinitionOwned(idx, k))
    && (forall k :: 0 <= k < |idx.links| ==> LinkOwned(idx, k))
    && (forall url :: url in idx.entries ==> EntryOwned(idx, url))
    && (forall section, j :: 0 <= j < |idx.Vector(section)| ==> SymbolDefined(idx, section, j))
    && TableAgrees(idx.imports, idx.importOffsets)
    && TableAgrees(idx.literals, idx.literalOffsets)
    && TableAgrees(idx.types, idx.typeOffsets)
  }

  /** Nothing that `a` holds has moved in `b`. */
  ghost predicate Extends(a: Index, b: Index) {
    && (forall url :: url in a.entries ==> url in b.entries && b.entries[url] == a.entries[url])
    && a.symbols <= b.symbols
    && a.links <= b.links
    && (forall section :: a.Vector(section) <= b.Vector(section))
    && (forall l :: l in a.importOffsets ==> l in b.importOffsets && b.importOffsets[l] == a.importOffsets[l])
    && (forall l :: l in a.literalOffsets ==> l in b.literalOffsets && b.literalOffsets[l] == a.literalOffsets[l])
    && (forall t :: t in a.typeOffsets ==> t in b.typeOffsets && b.typeOffsets[t] == a.typeOffsets[t])
  }

  lemma ExtendsItself(idx: Index)
    ensures Extends(idx, idx)
  {
  }

  lemma ExtendsTransitive(a: Index, b: Index, c: Index)
    requires Extends(a, b) && Extends(b, c)
    ensures Extends(a, c)
  {
    assert forall section :: a.Vector(section) <= b.Vector(section) <= c.Vector(section);
  }

  lemma AppendAgrees<K>(keys: seq<K>, offsets: map<K, nat>, k: K)
    requires TableAgrees(keys, offsets) && k !in offsets
    ensures TableAgrees(keys + [k], offsets[k := |keys|])
  {
  }

  lemma ImportConsistent(idx: Index, location: string)
    requires Consistent(idx)
    ensures Consistent(InsertImport(idx, location))
    ensures Extends(idx, InsertImport(idx, location))
    ensures location in InsertImport(idx, location).importOffsets
  {
    var after := InsertImport(idx, location);
    if location !in idx.importOffsets {
      AppendAgrees(idx.imports, idx.importOffsets, location);
    }
    assert forall s :: after.Vector(s) == idx.Vector(s);
    assert forall k :: 0 <= k < |idx.symbols| ==> DefinitionOwned(idx, k) ==> DefinitionOwned(after, k);
    assert forall k :: 0 <= k < |idx.links| ==> LinkOwned(idx, k) ==> LinkOwned(after, k);
    assert forall url :: url in idx.entries ==> EntryOwned(idx, url) ==> EntryOwned(after, url);
    assert forall s, j :: 0 <= j < |idx.Vector(s)| ==> SymbolDefined(idx, s, j) ==> SymbolDefined(after, s, j);
  }

  lemma TypeConsistent(idx: Index, t: TypeDef)
    requires Consistent(idx)
    ensures Consistent(InsertType(idx, t)) && Extends(idx, InsertType(idx, t)) && t in InsertType(idx, t).typeOffsets
  {
    var after := InsertType(idx, t);
    if t !in idx.typeOffsets {
      AppendAgrees(idx.types, idx.typeOffsets, t);
    }
    SameSymbolsConsistent(idx, after);
  }

  lemma LiteralConsistent(idx: Index, l: Literal)
    requires Consistent(idx)
    ensures Consistent(TouchLiteral(idx, l)) && Extends(idx, TouchLiteral(idx, l))
              && l in TouchLiteral(idx, l).literalOffsets
  {
    var after := TouchLiteral(idx, l);
    if l !in idx.literalOffsets {
      AppendAgrees(idx.literals, idx.literalOffsets, l);
    }
    SameSymbolsConsistent(idx, after);
  }

  lemma SameSymbolsConsistent(idx: Index, after: Index)
    requires Consistent(idx)
    requires after == idx.(literals := after.literals, literalOffsets := after.literalOffsets,
                           types := after.types, typeOffsets := after.typeOffsets)
    requires TableAgrees(after.literals, after.literalOffsets)
    requires TableAgrees(after.types, after.typeOffsets)
    ensures Consistent(after)
  {
    assert forall s :: after.Vector(s) == idx.Vector(s);
    assert forall k :: 0 <= k < |idx.symbols| ==> DefinitionOwned(idx, k) ==> DefinitionOwned(after, k);
    assert forall k :: 0 <= k < |idx.links| ==> LinkOwned(idx, k) ==> LinkOwned(after, k);
    assert forall url :: url in idx.entries ==> EntryOwned(idx, url) ==> EntryOwned(after, url);
    assert forall s, j :: 0 <= j < |idx.Vector(s)| ==> SymbolDefined(idx, s, j) ==> SymbolDefined(after, s, j);
  }

  lemma AddLinkConsistent(idx: Index, symbol: Symbol)
    requires Consistent(idx) && symbol.url !in idx.entries && symbol.url.location in idx.importOffsets
    ensures Consistent(AddLink(idx, symbol)) && Extends(idx, AddLink(idx, symbol))
  {
    var after := AddLink(idx, symbol);
    assert forall s :: after.Vector(s) == idx.Vector(s);
    forall url | url in after.entries
      ensures EntryOwned(after, url)
    {
      assert url != symbol.url ==> EntryOwned(idx, url);
    }
    forall k | 0 <= k < |after.symbols|
      ensures DefinitionOwned(after, k)
    {
      assert DefinitionOwned(idx, k);
    }
    forall k | 0 <= k < |after.links|
      ensures LinkOwned(after, k)
    {
      assert k < |idx.links| ==> LinkOwned(idx, k);
    }
    forall s, j | 0 <= j < |after.Vector(s)|
      ensures SymbolDefined(after, s, j)
    {
      assert SymbolDefined(idx, s, j);
    }
  }

  lemma AddDefinitionVectors(idx: Index, symbol: Symbol, s: Section)
    ensures AddDefinition(idx, symbol).Vector(s)
         == if s == LinkageOf(symbol.kind) then idx.Vector(s) + [symbol] else idx.Vector(s)
  {
  }

  lemma AddDefinitionOwned(idx: Index, symbol: Symbol)
    requires Consistent(idx) && symbol.url !in idx.entries
    ensures var after := AddDefinition(idx, symbol);
            && (forall k :: 0 <= k < |after.symbols| ==> DefinitionOwned(after, k))
            && (forall url :: url in after.entries ==> EntryOwned(after, url))
  {
    var after := AddDefinition(idx, symbol);
    forall s
      ensures after.Vector(s) == if s == LinkageOf(symbol.kind) then idx.Vector(s) + [symbol] else idx.Vector(s)
    {
      AddDefinitionVectors(idx, symbol, s);
    }
    hide Index.Vector;
    forall url | url in after.entries
      ensures EntryOwned(after, url)
    {
      assert url != symbol.url ==> EntryOwned(idx, url);
    }
    forall k | 0 <= k < |after.symbols|
      ensures DefinitionOwned(after, k)
    {
      assert k < |idx.symbols| ==> DefinitionOwned(idx, k);
    }
  }

  lemma AddDefinitionDefined(idx: Index, symbol: Symbol)
    requires Consistent(idx) && symbol.url !in idx.entries
    ensures var after := AddDefinition(idx, symbol);
            && (forall k :: 0 <= k < |after.links| ==> LinkOwned(after, k))
            && (forall s, j :: 0 <= j < |after.Vector(s)| ==> SymbolDefined(after, s, j))
  {
    var after := AddDefinition(idx, symbol);
    forall k | 0 <= k < |after.links|
      ensures LinkOwned(after, k)
    {
      assert LinkOwned(idx, k);
    }
    forall s, j | 0 <= j < |after.Vector(s)|
      ensures SymbolDefined(after, s, j)
    {
      AddDefinitionVectors(idx, symbol, s);
      assert j < |idx.Vector(s)| ==> SymbolDefined(idx, s, j);
    }
  }

  lemma AddDefinitionConsistent(idx: Index, symbol: Symbol)
    requires Consistent(idx) && symbol.url !in idx.entries
    ensures Consistent(AddDefinition(idx, symbol)) && Extends(idx, AddDefinition(idx, symbol))
  {
    hide DefinitionOwned, LinkOwned, EntryOwned, SymbolDefined, TableAgrees, Index.Vector;
    AddDefinitionOwned(idx, symbol);
    AddDefinitionDefined(idx, symbol);
    forall s
      ensures idx.Vector(s) <= AddDefinition(idx, symbol).Vector(s)
    {
      AddDefinitionVectors(idx, symbol, s);
    }
  }

  lemma AddSymbolConsistent(idx: Index, symbol: Symbol)
    requires Consistent(idx) && symbol.url !in idx.entries
    ensures Consistent(AddSymbol(idx, symbol))
    ensures Extends(idx, AddSymbol(idx, symbol))
    ensures EntrySection(AddSymbol(idx, symbol), symbol.url) == Some(LinkageOf(symbol.kind))
  {
    if symbol.imported {
      var mid := InsertImport(idx, symbol.url.location);
      ImportConsistent(idx, symbol.url.location);
      AddLinkConsistent(mid, symbol);
      ExtendsTransitive(idx, mid, AddLink(mid, symbol));
    } else {
      AddDefinitionConsistent(idx, symbol);
    }
  }

  // ---------- any run of insertions ----------

  /** The insertions a touch makes: symbols under their own urls, types, literals and imports. */
  datatype Insertion =
    | OfSymbol(symbol: Symbol)
    | OfType(t: TypeDef)
    | OfLiteral(literal: Literal)
    | OfImport(location: string)

  /** A symbol that cannot be tracked leaves the index as it is. */
  function Insert(idx: Index, insertion: Insertion): Index {
    match insertion
    case OfSymbol(symbol) =>
      var r := InsertSymbol(idx, symbol.url, symbol);
      if r.Ok? then r.value.0 else idx
    case OfType(t) => InsertType(idx, t)
    case OfLiteral(literal) => TouchLiteral(idx, literal)
    case OfImport(location) => InsertImport(idx, location)
  }

  function InsertAll(idx: Index, run: seq<Insertion>): Index
    decreases |run|
  {
    if run == [] then idx else InsertAll(Insert(idx, run[0]), run[1..])
  }

  lemma InsertConsistent(idx: Index, insertion: Insertion)
    requires Consistent(idx)
    ensures Consistent(Insert(idx, insertion)) && Extends(idx, Insert(idx, insertion))
  {
    match insertion
    case OfSymbol(symbol) =>
      if symbol.url !in idx.entries && Tracked(symbol.kind) {
        AddSymbolConsistent(idx, symbol);
      }
    case OfType(t) => TypeConsistent(idx, t);
    case OfLiteral(literal) => LiteralConsistent(idx, literal);
    case OfImport(location) => ImportConsistent(idx, location);
  }

  /** In every state reached by insertions the index agrees with its vectors, and nothing
      entered before has moved. */
  lemma {:induction false} RunConsistent(idx: Index, run: seq<Insertion>)
    requires Consistent(idx)
    ensures Consistent(InsertAll(idx, run)) && Extends(idx, InsertAll(idx, run))
    decreases |run|
  {
    if run != [] {
      var next := Insert(idx, run[0]);
      InsertConsistent(idx, run[0]);
      RunConsistent(next, run[1..]);
      ExtendsTransitive(idx, next, InsertAll(next, run[1..]));
    }
  }

  // ---------- what is in the index ----------

  /** The symbol that a url was entered with: the first trackable one that a run inserts under it. */
  function FirstInserted(run: seq<Insertion>, url: Url): Option<Symbol> {
    if run == [] then None
    else
      var before := FirstInserted(run[..|run| - 1], url);
      var last := run[|run| - 1];
      if before.Some? then before
      else if last.OfSymbol? && last.symbol.url == url && Tracked(last.symbol.kind) then Some(last.symbol)
      else None
  }

  /** The entry of a url says what it was entered with: an imported symbol is a link, to its section, of an imported
      module, and any other symbol stands in the vector of its section. */
  ghost predicate EnteredAs(idx: Index, url: Url, symbol: Symbol) {
    && url in idx.entries && symbol.url == url
    && match idx.entries[url]
       case LinkEntry(k) =>
         && symbol.imported && url.location in idx.importOffsets
         && k < |idx.links| && idx.links[k] == RequestedLink(LinkageOf(symbol.kind), url)
       case DescriptorEntry(k) =>
         && !symbol.imported
         && k < |idx.symbols| && idx.symbols[k].section == LinkageOf(symbol.kind)
         && idx.symbols[k].index < |idx.Vector(idx.symbols[k].section)|
         && idx.Vector(idx.symbols[k].section)[idx.symbols[k].index] == symbol
  }

  /** The modules that a run makes the object import: those it asks for, and those of imported symbols. */
  ghost predicate Imports(run: seq<Insertion>, location: string) {
    || OfImport(location) in run
    || exists url :: FirstInserted(run, url).Some? && FirstInserted(run, url).value.imported && url.location == location
  }

  /** The index holds what the run inserted, and nothing else. */
  ghost predicate HoldsExactly(idx: Index, run: seq<Insertion>) {
    && (forall url :: url in idx.entries <==> FirstInserted(run, url).Some?)
    && (forall url :: url in idx.entries ==> EnteredAs(idx, url, FirstInserted(run, url).value))
    && (forall t :: t in idx.typeOffsets <==> OfType(t) in run)
    && (forall l :: l in idx.literalOffsets <==> OfLiteral(l) in run)
    && (forall location :: location in idx.importOffsets <==> Imports(run, location))
  }

  lemma EmptyConsistent()
    ensures Consistent(EMPTY) && HoldsExactly(EMPTY, [])
  {
  }

  lemma {:induction false} InsertAllLast(idx: Index, run: seq<Insertion>, last: Insertion)
    ensures InsertAll(idx, run + [last]) == Insert(InsertAll(idx, run), last)
    decreases |run|
  {
    hide Insert;
    if run == [] {
      assert (run + [last])[1..] == [];
    } else {
      assert (run + [last])[0] == run[0] && (run + [last])[1..] == run[1..] + [last];
      InsertAllLast(Insert(idx, run[0]), run[1..], last);
    }
  }

  lemma FirstInsertedLast(run: seq<Insertion>, last: Insertion, url: Url)
    ensures FirstInserted(run + [last], url) ==
              if FirstInserted(run, url).Some? then FirstInserted(run, url)
              else if last.OfSymbol? && last.symbol.url == url && Tracked(last.symbol.kind) then Some(last.symbol)
              else None
  {
    assert (run + [last])[..|run|] == run;
  }

  lemma EnteredAsStays(a: Index, b: Index, url: Url, symbol: Symbol)
    requires Extends(a, b) && EnteredAs(a, url, symbol)
    ensures EnteredAs(b, url, symbol)
  {
  }

  /** A symbol is entered as what it is. */
  lemma AddedAs(idx: Index, symbol: Symbol)
    requires Consistent(idx) && symbol.url !in idx.entries
    ensures var after := AddSymbol(idx, symbol);
            && EnteredAs(after, symbol.url, symbol)
            && (forall url :: url in after.entries <==> url in idx.entries || url == symbol.url)
            && after.typeOffsets == idx.typeOffsets && after.literalOffsets == idx.literalOffsets
            && (forall location :: location in after.importOffsets <==>
                    location in idx.importOffsets || (symbol.imported && location == symbol.url.location))
  {
    if !symbol.imported {
      AddDefinitionVectors(idx, symbol, LinkageOf(symbol.kind));
    }
  }

  lemma ImportsLast(run: seq<Insertion>, last: Insertion, location: string)
    ensures Imports(run + [last], location) <==>
              || Imports(run, location) || last == OfImport(location)
              || (last.OfSymbol? && FirstInserted(run, last.symbol.url).None? && Tracked(last.symbol.kind)
                  && last.symbol.imported && last.symbol.url.location == location)
  {
    hide FirstInserted, Tracked;
    forall url
      ensures FirstInserted(run + [last], url) ==
                if FirstInserted(run, url).Some? then FirstInserted(run, url)
                else if last.OfSymbol? && last.symbol.url == url && Tracked(last.symbol.kind) then Some(last.symbol)
                else None
    {
      FirstInsertedLast(run, last, url);
    }
    if last.OfSymbol? && FirstInserted(run, last.symbol.url).None? && Tracked(last.symbol.kind)
       && last.symbol.imported && last.symbol.url.location == location {
      assert FirstInserted(run + [last], last.symbol.url).value.imported;
    }
  }

  lemma UrlsHold(idx: Index, run: seq<Insertion>, last: Insertion)
    requires Consistent(idx) && HoldsExactly(idx, run)
    ensures var after := Insert(idx, last);
            && (forall url :: url in after.entries <==> FirstInserted(run + [last], url).Some?)
            && (forall url :: url in after.entries ==> EnteredAs(after, url, FirstInserted(run + [last], url).value))
  {
    hide Consistent, Extends, EnteredAs, Imports, FirstInserted, Tracked, AddSymbol;
    var after := Insert(idx, last);
    InsertConsistent(idx, last);
    if last.OfSymbol? && last.symbol.url !in idx.entries && Tracked(last.symbol.kind) {
      AddedAs(idx, last.symbol);
    }
    forall url
      ensures url in after.entries <==> FirstInserted(run + [last], url).Some?
      ensures url in after.entries ==> EnteredAs(after, url, FirstInserted(run + [last], url).value)
    {
      FirstInsertedLast(run, last, url);
      if url in idx.entries {
        EnteredAsStays(idx, after, url, FirstInserted(run, url).value);
      }
    }
  }

  lemma TablesHold(idx: Index, run: seq<Insertion>, last: Insertion)
    requires Consistent(idx) && HoldsExactly(idx, run)
    ensures var after := Insert(idx, last);
            && (forall t :: t in after.typeOffsets <==> OfType(t) in run + [last])
            && (forall l :: l in after.literalOffsets <==> OfLiteral(l) in run + [last])
  {
    hide Consistent, EnteredAs, Imports, FirstInserted, Tracked, AddSymbol;
    if last.OfSymbol? && last.symbol.url !in idx.entries && Tracked(last.symbol.kind) {
      AddedAs(idx, last.symbol);
    }
  }

  lemma LocationsHold(idx: Index, run: seq<Insertion>, last: Insertion)
    requires Consistent(idx) && HoldsExactly(idx, run)
    ensures forall location :: location in Insert(idx, last).importOffsets <==> Imports(run + [last], location)
  {
    hide Consistent, EnteredAs, Imports, FirstInserted, Tracked, AddSymbol;
    if last.OfSymbol? && last.symbol.url !in idx.entries && Tracked(last.symbol.kind) {
      AddedAs(idx, last.symbol);
    }
    forall location
      ensures location in Insert(idx, last).importOffsets <==> Imports(run + [last], location)
    {
      ImportsLast(run, last, location);
    }
  }

  lemma InsertHolds(idx: Index, run: seq<Insertion>, last: Insertion)
    requires Consistent(idx) && HoldsExactly(idx, run)
    ensures HoldsExactly(Insert(idx, last), run + [last])
  {
    hide Consistent, EnteredAs, Imports, FirstInserted, Insert;
    UrlsHold(idx, run, last);
    TablesHold(idx, run, last);
    LocationsHold(idx, run, last);
  }

  /** Over any run from the empty index, it holds exactly what was inserted: each url as the symbol it was entered
      with, and the types, literals and imports. */
  lemma {:induction false} RunHoldsExactly(run: seq<Insertion>)
    ensures Consistent(InsertAll(EMPTY, run)) && HoldsExactly(InsertAll(EMPTY, run), run)
    decreases |run|
  {
    hide Consistent, HoldsExactly, Extends, Insert;
    EmptyConsistent();
    RunConsistent(EMPTY, run);
    if run != [] {
      var n := |run| - 1;
      RunHoldsExactly(run[..n]);
      assert run[..n] + [run[n]] == run;
      InsertAllLast(EMPTY, run[..n], run[n]);
      InsertHolds(InsertAll(EMPTY, run[..n]), run[..n], run[n]);
    }
  }

  /** An imported symbol is a link and any other one a definition: over any run from the empty index a url has a far
      address exactly when the symbol that it was entered with is imported, its address leads back to it in
      the section of the symbol, and its module is imported then. */
  lemma FarExactlyWhenImported(run: seq<Insertion>, url: Url)
    requires var idx := InsertAll(EMPTY, run); |idx.links| < 0x8000_0000
    requires FirstInserted(run, url).Some?
    requires var section := LinkageOf(FirstInserted(run, url).value.kind);
             |InsertAll(EMPTY, run).Vector(section)| <= 0x8000_0000
    ensures var idx := InsertAll(EMPTY, run);
            var symbol := FirstInserted(run, url).value;
            var address := SectionAddress(idx, url, LinkageOf(symbol.kind));
            && address.Ok?
            && (address.value >= 0x8000_0000 <==> symbol.imported)
            && Denoted(idx, LinkageOf(symbol.kind), address.value) == Some(url)
            && (symbol.imported ==> url.location in idx.importOffsets)
  {
    hide Consistent, InsertAll, FirstInserted, Imports;
    RunHoldsExactly(run);
    var idx := InsertAll(EMPTY, run);
    assert EnteredAs(idx, url, FirstInserted(run, url).value);
    AddressDenotes(idx, url, LinkageOf(FirstInserted(run, url).value.kind));
  }

  /** The section vectors hold the symbols that are not imported, each in the vector of its section. */
  lemma VectorsHoldDefinitions(run: seq<Insertion>, section: Section, symbol: Symbol)
    ensures symbol in InsertAll(EMPTY, run).Vector(section) <==>
              FirstInserted(run, symbol.url) == Some(symbol) && !symbol.imported && LinkageOf(symbol.kind) == section
  {
    hide InsertAll, FirstInserted, Imports;
    RunHoldsExactly(run);
    var idx := InsertAll(EMPTY, run);
    if symbol in idx.Vector(section) {
      var j :| 0 <= j < |idx.Vector(section)| && idx.Vector(section)[j] == symbol;
      assert SymbolDefined(idx, section, j);
    }
    if symbol.url in idx.entries {
      assert EnteredAs(idx, symbol.url, FirstInserted(run, symbol.url).value);
    }
  }

  /** An address handed out once is the address handed out ever after. */
  lemma AddressesStable(idx: Index, run: seq<Insertion>, url: Url, section: Section)
    requires Consistent(idx) && url in idx.entries
    ensures SectionAddress(InsertAll(idx, run), url, section) == SectionAddress(idx, url, section)
  {
    RunConsistent(idx, run);
    assert EntryOwned(idx, url);
  }

  lemma OffsetsStable(idx: Index, run: seq<Insertion>, t: TypeDef, literal: Literal)
    requires Consistent(idx)
    ensures TypeOffset(idx, t).Ok? ==> TypeOffset(InsertAll(idx, run), t) == TypeOffset(idx, t)
    ensures LiteralAddress(idx, literal).Ok? ==>
              LiteralAddress(InsertAll(idx, run), literal) == LiteralAddress(idx, literal)
  {
    RunConsistent(idx, run);
  }

  /** The symbol or link that an address denotes. */
  function Denoted(idx: Index, section: Section, address: U32): Option<Url> {
    if address < 0x8000_0000 then
      if address < |idx.Vector(section)| then Some(idx.Vector(section)[address].url) else None
    else
      var k := address - 0x8000_0000;
      if k < |idx.links| && idx.links[k].section == section then Some(idx.links[k].url) else None
  }

  /** The addresses of a consistent index lead back to their urls, so they are distinct;
      the vectors must be no longer than an address can say. */
  lemma AddressDenotes(idx: Index, url: Url, section: Section)
    requires Consistent(idx)
    requires |idx.Vector(section)| <= 0x8000_0000 && |idx.links| < 0x8000_0000
    requires SectionAddress(idx, url, section).Ok?
    ensures Denoted(idx, section, SectionAddress(idx, url, section).value) == Some(url)
  {
    assert EntryOwned(idx, url);
    if idx.entries[url].DescriptorEntry? {
      assert DefinitionOwned(idx, idx.entries[url].index);
    }
  }

  /** Inserting a symbol is refused exactly when its url is not entered and it is of a kind that no object
      contains; it says whether the url was entered already, and afterwards it is. */
  lemma InsertsExactly(idx: Index, symbol: Symbol)
    ensures var r := InsertSymbol(idx, symbol.url, symbol);
            && (r.Err? <==>
                  && symbol.url !in idx.entries
                  && symbol.kind in {SymbolType.Constant, Local, Lexical, Argument, Synthetic, Linkage, Typename})
            && (r.Err? ==> r.condition == AssemblerInvariant)
            && (r.Ok? ==>
                  && (r.value.1 <==> symbol.url in idx.entries)
                  && (r.value.1 ==> r.value.0 == idx) && symbol.url in r.value.0.entries)
  {
    SectionsDiffer(symbol.kind, symbol.kind);
  }

  /** A url that is entered can be addressed in its own section and in no other. */
  lemma AddressedInOwnSection(idx: Index, url: Url, section: Section)
    requires Consistent(idx)
    ensures SectionAddress(idx, url, section).Ok? <==> EntrySection(idx, url) == Some(section)
    ensures SectionAddress(idx, url, section).Err? ==> SectionAddress(idx, url, section) == Err(AssemblerInvariant)
  {
  }

  /** Entering a symbol under a url that is not its own moves the addresses of its own url,
      exactly when its own url was entered and the other was not. */
  lemma ForeignUrlMovesAddresses(idx: Index, url: Url, symbol: Symbol)
    requires Consistent(idx) && InsertSymbol(idx, url, symbol).Ok?
    ensures Extends(idx, InsertSymbol(idx, url, symbol).value.0) <==> url in idx.entries || symbol.url !in idx.entries
  {
    if url !in idx.entries {
      var after := AddSymbol(idx, symbol);
      if symbol.url !in idx.entries {
        AddSymbolConsistent(idx, symbol);
      } else {
        assert EntryOwned(idx, symbol.url);
        assert after.entries[symbol.url] != idx.entries[symbol.url];
      }
    }
  }

  /** A symbol that is entered under its own url and then under another one: the address of its own
      url changes. */
  lemma EnteredTwiceMoves(url: Url, other: Url, symbol: Symbol)
    requires url != other && symbol.url == url && symbol.kind == SymbolType.Class && !symbol.imported
    ensures var once := InsertSymbol(EMPTY, url, symbol);
            && Consistent(EMPTY)
            && once.Ok? && SectionAddress(once.value.0, url, ClassSection) == Ok(0)
            && var twice := InsertSymbol(once.value.0, other, symbol);
               twice.Ok? && SectionAddress(twice.value.0, url, ClassSection) == Ok(1)
  {
    assert AddDefinition(EMPTY, symbol).vectors[ClassSection] == [symbol];
  }
}
