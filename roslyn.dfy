/**
 * The facts the host compiler hands to the generator, written as plain data.
 * Symbol resolution, attribute binding and the semantic model are outside the
 * model: their outcomes appear here as already-resolved fields.
 */
module Roslyn {
  import opened Wrappers

  /** Identity of a type symbol; two attribute classes are the same type exactly when their ids are equal. */
  type TypeId = nat

  /** Identity of a syntax node (syntax nodes compare by reference). */
  type NodeId = nat

  /**
   * A named argument of an applied attribute, `Key = Value`.
   * `value` is the argument's constant converted to a string, None when that constant is null.
   */
  datatype NamedArgument = NamedArgument(key: string, value: Option<string>)

  /** An attribute applied to a symbol: its class (None when the class did not bind) and its named arguments in order. */
  datatype AttributeData = AttributeData(attributeClass: Option<TypeId>, namedArguments: seq<NamedArgument>)

  /** A named type symbol: its display (fully qualified) name and its attributes in declaration order. */
  datatype NamedTypeSymbol = NamedTypeSymbol(displayName: string, attributes: seq<AttributeData>)

  /** What an attribute's syntax binds to: the attribute constructor (a method) or some other symbol. */
  datatype AttributeSymbol = MethodSymbol(containingTypeName: string) | OtherSymbol

  /** One attribute as written in source, with the symbol the semantic model gives it (None when unresolved). */
  datatype AttributeSyntax = AttributeSyntax(symbol: Option<AttributeSymbol>)

  /**
   * An enum declaration. `attributeLists` are its bracketed attribute lists as written;
   * `declaredSymbol` is what the semantic model declares for it, None when that is not a named type.
   */
  datatype EnumDeclarationSyntax = EnumDeclarationSyntax(
    node: NodeId,
    attributeLists: seq<seq<AttributeSyntax>>,
    declaredSymbol: Option<NamedTypeSymbol>)

  /** The kinds of syntax node the generator distinguishes. */
  datatype NodeKind =
    | NamespaceDeclaration(name: string)
    | FileScopedNamespaceDeclaration(name: string)
    | EnumDeclaration(decl: EnumDeclarationSyntax)
    | OtherNode

  /** The compilation, reduced to the one lookup the generator makes: its types by full metadata name (namespace included). */
  datatype Compilation = Compilation(typesByMetadataName: map<string, TypeId>)
  {
    /** The type whose full metadata name is exactly the given one; None (null) when there is none. */
    function GetTypeByMetadataName(fullyQualifiedMetadataName: string): Option<TypeId>
    {
      if fullyQualifiedMetadataName in typesByMetadataName then Some(typesByMetadataName[fullyQualifiedMetadataName])
      else None
    }
  }

  /** A source file handed back to the compiler. */
  datatype GeneratedSource = GeneratedSource(hintName: string, text: string)

  /** The output side of a generation pass: the sources added so far. */
  class SourceProductionContext {
    var sources: seq<GeneratedSource>

    constructor ()
      ensures sources == []
    {
      sources := [];
    }

    method AddSource(hintName: string, text: string)
      modifies this
      ensures sources == old(sources) + [GeneratedSource(hintName, text)]
    {
      sources := sources + [GeneratedSource(hintName, text)];
    }
  }
}
