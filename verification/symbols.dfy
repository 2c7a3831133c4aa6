/** What the dependency analyzers read from Roslyn, as plain values: the type
    terms a declaration mentions, its members, and the method bodies reduced to
    the syntax nodes the analyzers look at. The table is finite; a member id
    with no entry stands for a null member. */
module Symbols {
  import opened Wrappers

  /** A symbol location: whether it is in source, and the file path of its
      syntax tree when it has one. */
  datatype Location = Location(isInSource: bool, sourceTreePath: Option<string>)

  /** What every type symbol carries: whether its containing assembly is a
      metadata (non-source) assembly, and the locations of its original
      definition. */
  datatype TypeInfo = TypeInfo(isExternal: bool, definitionLocations: seq<Location>)

  /** A type as a reference to it is resolved. Type parameters, `dynamic` and
      error types are `OtherType`. */
  datatype TypeTerm =
    | NamedType(info: TypeInfo, isGenericType: bool, typeArguments: seq<TypeTerm>,
                isTupleType: bool, tupleElementTypes: seq<TypeTerm>)
    | ArrayType(info: TypeInfo, elementType: TypeTerm)
    | PointerType(info: TypeInfo, pointedAtType: TypeTerm)
    | FunctionPointerType(info: TypeInfo, returnType: TypeTerm, parameterTypes: seq<TypeTerm>)
    | OtherType(info: TypeInfo)

  /** A method parameter; `typeDefault` is an explicit default value that is
      itself a type symbol. */
  datatype Parameter = Parameter(parameterType: TypeTerm, typeDefault: Option<TypeTerm>)

  /** A method, local function or lambda, with one syntax per declaring syntax
      reference. */
  datatype MethodSymbol = MethodSymbol(
    returnType: TypeTerm,
    parameters: seq<Parameter>,
    typeParameterConstraints: seq<seq<TypeTerm>>,
    declaringSyntaxes: seq<MethodSyntax>)

  /** The descendant nodes of one declaring syntax, in document order. */
  datatype MethodSyntax = MethodSyntax(descendants: seq<BodyNode>)

  /** The descendant syntax nodes of a method body, classified as the analyzers
      classify them, with what the semantic model resolves them to. */
  datatype BodyNode =
    | TypeSyntaxNode(resolvedType: Option<TypeTerm>)
    | ObjectCreationNode(createdType: Option<TypeTerm>)
    | CastNode(targetType: Option<TypeTerm>)
    | PatternNode
    | LocalFunctionNode(localFunction: Option<MethodSymbol>)
    | LambdaNode(lambda: Option<MethodSymbol>)
    | OtherNode

  type SymbolId = nat

  /** A named type declaration: base type, all interfaces, and, for a generic
      type, the constraint types of each type parameter and the type arguments. */
  datatype TypeDeclaration = TypeDeclaration(
    baseType: Option<TypeTerm>,
    allInterfaces: seq<TypeTerm>,
    isGenericType: bool,
    typeParameterConstraints: seq<seq<TypeTerm>>,
    typeArguments: seq<TypeTerm>,
    members: seq<SymbolId>)

  datatype SymbolKind =
    | TypeSymbol(declaration: TypeDeclaration)
    | FieldSymbol(fieldType: TypeTerm)
    | PropertySymbol(propertyType: TypeTerm, parameterTypes: seq<TypeTerm>)
    | MethodMember(methodSymbol: MethodSymbol)
    | EventSymbol(eventType: TypeTerm)
    | OtherSymbol

  /** A symbol with the attribute classes of its attributes (None: the
      attribute class did not resolve). */
  datatype Symbol = Symbol(attributeClasses: seq<Option<TypeTerm>>, kind: SymbolKind)

  type SymbolTable = map<SymbolId, Symbol>

  /** A leading trivia of a syntax tree's root: a `#pragma checksum` directive
      with the file it names, or anything else. */
  datatype Trivia = ChecksumPragma(file: string) | OtherTrivia

  /** A type declaration found in a syntax tree, with the symbol the semantic
      model declares for it. */
  datatype TypeDeclarationSyntax = TypeDeclarationSyntax(declaredSymbol: Option<SymbolId>)

  /** A syntax tree: its file path (empty when it has none), its root's leading
      trivia and the type declarations among its descendants, in order. */
  datatype SyntaxTree = SyntaxTree(filePath: string, leadingTrivia: seq<Trivia>,
                                   typeDeclarations: seq<TypeDeclarationSyntax>)

  /** A C# compilation of one project: its symbols, its syntax trees and the
      paths of the project's additional documents. */
  datatype Compilation = Compilation(table: SymbolTable, syntaxTrees: seq<SyntaxTree>,
                                     additionalDocuments: seq<string>)
}
