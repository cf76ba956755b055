/** Symbols and the sections of an object that they are linked into. */
module Symbols {
  import opened BigEndian
  import opened TypeDefs
  import opened Wrappers

  datatype SymbolType =
    | Existential | Action | Call | Constant | Field | Static | Local | Lexical | Argument | Synthetic
    | Concept | Class | Instance | Struct | Enum | Protocol | Namespace | Binding | Linkage | Typename

  datatype Section =
    | NoSection | TypeSection | ExistentialSection | LiteralSection | CallSection | FieldSection
    | StaticSection | ActionSection | ClassSection | StructSection | InstanceSection | ConceptSection
    | EnumSection | ProtocolSection | NamespaceSection | BindingSection

  /** `slot` is the offset of an argument, local or lexical variable in its activation. */
  datatype Symbol = Symbol(kind: SymbolType, url: Url, imported: bool, slot: U32)

  /** The section that a symbol of this type is linked into. */
  function LinkageOf(kind: SymbolType): Section {
    match kind
    case Existential => ExistentialSection
    case Action => ActionSection
    case Call => CallSection
    case Field => FieldSection
    case Static => StaticSection
    case Concept => ConceptSection
    case Class => ClassSection
    case Instance => InstanceSection
    case Struct => StructSection
    case Enum => EnumSection
    case Protocol => ProtocolSection
    case Namespace => NamespaceSection
    case Binding => BindingSection
    case _ => NoSection
  }

  /** Every kind of symbol that an object can contain has a section of its own. */
  lemma SectionsDiffer(kind: SymbolType, other: SymbolType)
    ensures LinkageOf(kind) == LinkageOf(other) && kind != other ==> LinkageOf(kind) == NoSection
    ensures LinkageOf(kind) == NoSection <==>
              kind in {SymbolType.Constant, Local, Lexical, Argument, Synthetic, Linkage, Typename}
  {
  }

  /** The byte that names a section in the operand of a descriptor load. */
  function SectionByte(section: Section): Byte {
    match section
    case NoSection => 0
    case TypeSection => 1
    case ExistentialSection => 2
    case LiteralSection => 3
    case CallSection => 4
    case FieldSection => 5
    case StaticSection => 6
    case ActionSection => 7
    case ClassSection => 8
    case StructSection => 9
    case InstanceSection => 10
    case ConceptSection => 11
    case EnumSection => 12
    case ProtocolSection => 13
    case NamespaceSection => 14
    case BindingSection => 15
  }

  const INVALID_ADDRESS: U32 := 0xFFFF_FFFF

  function DescriptorAddress(offset: nat): U32 {
    if offset <= 0x7FFF_FFFF then offset else INVALID_ADDRESS
  }

  function LinkAddress(offset: nat): U32 {
    if offset <= 0x7FFF_FFFF then 0x8000_0000 + offset else INVALID_ADDRESS
  }
}
