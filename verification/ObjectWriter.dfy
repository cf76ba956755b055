/** The object writer: it collects symbols, literals and types while procedures are
    touched, and hands out their addresses while procedures are built. */
module ObjectWriters {
  import opened BigEndian
  import opened Symbols
  import opened SymbolIndex
  import opened TypeDefs
  import opened Wrappers

  class ObjectWriter {
    var vectors: map<Section, seq<Symbol>>
    var symbols: seq<SymbolDefinition>
    var links: seq<RequestedLink>
    var entries: map<Url, SymbolEntry>
    var imports: seq<string>
    var importOffsets: map<string, nat>
    var literals: seq<Literal>
    var literalOffsets: map<Literal, nat>
    var types: seq<TypeDef>
    var typeOffsets: map<TypeDef, nat>

    function State(): Index
      reads this
    {
      Index(vectors, symbols, links, entries, imports, importOffsets, literals, literalOffsets, types, typeOffsets)
    }

    constructor ()
      ensures State() == EMPTY && Consistent(State())
    {
      vectors, symbols, links, entries := map[], [], [], map[];
      imports, importOffsets := [], map[];
      literals, literalOffsets := [], map[];
      types, typeOffsets := [], map[];
    }

    method InsertImport(location: string)
      modifies this
      ensures State() == SymbolIndex.InsertImport(old(State()), location)
    {
      if location in importOffsets {
        return;
      }
      var offset := |imports|;
      imports := imports + [location];
      importOffsets := importOffsets[location := offset];
    }

    /** Enters a symbol that is not entered yet under its own url. */
    method AddSymbol(symbol: Symbol)
      modifies this
      ensures State() == SymbolIndex.AddSymbol(old(State()), symbol)
    {
      var section := LinkageOf(symbol.kind);
      var entry;
      if symbol.imported {
        InsertImport(symbol.url.location);
        entry := LinkEntry(|links|);
        links := links + [RequestedLink(section, symbol.url)];
      } else {
        entry := DescriptorEntry(|symbols|);
        var vector := if section in vectors then vectors[section] else [];
        var definition := SymbolDefinition(section, |vector|);
        vectors := vectors[section := vector + [symbol]];
        symbols := symbols + [definition];
      }
      entries := entries[symbol.url := entry];
    }

    /** The result says whether the url was entered already. */
    method InsertSymbol(url: Url, symbol: Symbol) returns (r: Result<bool>)
      modifies this
      ensures var spec := SymbolIndex.InsertSymbol(old(State()), url, symbol);
              if spec.Ok? then State() == spec.value.0 && r == Ok(spec.value.1)
              else State() == old(State()) && r == Err(spec.condition)
      ensures old(Consistent(State())) && url == symbol.url ==> Consistent(State()) && Extends(old(State()), State())
    {
      ghost var before := State();
      if url in entries {
        return Ok(true);
      }
      if LinkageOf(symbol.kind) == NoSection {
        return Err(AssemblerInvariant);
      }
      AddSymbol(symbol);
      if Consistent(before) && url == symbol.url {
        AddSymbolConsistent(before, symbol);
      }
      return Ok(false);
    }

    method InsertType(t: TypeDef)
      modifies this
      ensures State() == SymbolIndex.InsertType(old(State()), t)
    {
      if t in typeOffsets {
        return;
      }
      var offset := |types|;
      types := types + [t];
      typeOffsets := typeOffsets[t := offset];
    }

    method TouchLiteral(literal: Literal)
      modifies this
      ensures State() == SymbolIndex.TouchLiteral(old(State()), literal)
    {
      if literal !in literalOffsets {
        var offset := |literals|;
        literals := literals + [literal];
        literalOffsets := literalOffsets[literal := offset];
      }
    }

    method GetSectionAddress(url: Url, section: Section) returns (r: Result<U32>)
      ensures r == SectionAddress(State(), url, section)
    {
      if url !in entries {
        return Err(AssemblerInvariant);
      }
      match entries[url] {
        case DescriptorEntry(k) =>
          if |symbols| <= k || symbols[k].section != section {
            return Err(AssemblerInvariant);
          }
          return Ok(DescriptorAddress(symbols[k].index));
        case LinkEntry(k) =>
          if |links| <= k || links[k].section != section {
            return Err(AssemblerInvariant);
          }
          return Ok(LinkAddress(k));
      }
    }

    method GetLiteralAddress(literal: Literal) returns (r: Result<U32>)
      ensures r == LiteralAddress(State(), literal)
    {
      if literal !in literalOffsets {
        return Err(AssemblerInvariant);
      }
      return Ok(ToU32(literalOffsets[literal]));
    }

    method GetTypeOffset(t: TypeDef) returns (r: Result<U32>)
      ensures r == TypeOffset(State(), t)
    {
      if t !in typeOffsets {
        return Err(AssemblerInvariant);
      }
      return Ok(ToU32(typeOffsets[t]));
    }

    method Insert(insertion: Insertion)
      modifies this
      ensures State() == SymbolIndex.Insert(old(State()), insertion)
    {
      match insertion {
        case OfSymbol(symbol) => var _ := InsertSymbol(symbol.url, symbol);
        case OfType(t) => InsertType(t);
        case OfLiteral(literal) => TouchLiteral(literal);
        case OfImport(location) => InsertImport(location);
      }
    }

    method InsertAll(run: seq<Insertion>)
      modifies this
      ensures State() == SymbolIndex.InsertAll(old(State()), run)
    {
      var i := 0;
      while i < |run|
        invariant 0 <= i <= |run|
        invariant SymbolIndex.InsertAll(State(), run[i..]) == SymbolIndex.InsertAll(old(State()), run)
      {
        Insert(run[i]);
        i := i + 1;
      }
    }
  }
}
