/** The per-declaration dependency walk shared by both solution analyzers: from
    a type declaration, collect the declaring files of the non-external types it
    mentions. Type terms and method bodies are walked by structural recursion;
    types and members are walked by two mutually recursive methods that thread
    one set of visited symbols. */
module SymbolAnalysis {
  import opened Wrappers
  import opened Text
  import opened IgnoreCase
  import opened Symbols
  import opened FileSystem

  // ---------------------------------------------------------------------------
  // Declaring files

  /** A location that gives a file: in source, with a tree whose path is not empty. */
  predicate UsableLocation(l: Location)
  {
    l.isInSource && l.sourceTreePath.Some? && l.sourceTreePath.value != ""
  }

  /** GetFilePathForSymbol: the tree path of the first usable location. */
  function FilePathForSymbol(locations: seq<Location>): (r: Option<string>)
    ensures r.None? <==> forall i | 0 <= i < |locations| :: !UsableLocation(locations[i])
    ensures r.Some? ==> exists i | 0 <= i < |locations| ::
      UsableLocation(locations[i]) && locations[i].sourceTreePath == Some(r.value)
      && forall j | 0 <= j < i :: !UsableLocation(locations[j])
  {
    if locations == [] then None
    else if UsableLocation(locations[0]) then Some(locations[0].sourceTreePath.value)
    else
      var r := FilePathForSymbol(locations[1..]);
      assert r.Some? ==> UsableLocation(locations[1..][0]) || exists i | 1 <= i < |locations[1..]| :: UsableLocation(locations[1..][i]);
      r
  }

  /** The file AddDependencies records for a type, if any. */
  function DeclaringFile(t: TypeTerm): Option<string>
  {
    if t.info.isExternal then None
    else match FilePathForSymbol(t.info.definitionLocations)
      case Some(p) => if IsWhiteSpaceOnly(p) then None else Some(p)
      case None => None
  }

  /** AddDependencies: the declaring file of a non-null, non-external type. */
  function AddDependencies(t: Option<TypeTerm>): (r: CiSet)
    ensures Keyed(r)
    ensures t.None? || t.value.info.isExternal ==> r == map[]
    ensures |r| <= 1
    ensures t.Some? ==> forall x | x in r.Values ::
      !IsWhiteSpaceOnly(x)
      && exists i | 0 <= i < |t.value.info.definitionLocations| ::
           t.value.info.definitionLocations[i].sourceTreePath == Some(x)
  {
    if t.None? then map[]
    else match DeclaringFile(t.value)
      case Some(p) => map[Fold(p) := p]
      case None => map[]
  }

  // ---------------------------------------------------------------------------
  // Type terms

  /** AnalyzeTypeReference: nothing for an external type; otherwise its own
      declaring file, then the generic arguments of a generic type, the element
      of an array or pointer, the elements of a tuple, and the return and
      parameter types of a function pointer. */
  function AnalyzeTypeReference(t: TypeTerm): (r: CiSet)
    ensures Keyed(r)
    decreases t, 1
  {
    if t.info.isExternal then map[]
    else
      var own := AddDependencies(Some(t));
      match t
      case NamedType(_, isGeneric, arguments, isTuple, elements) =>
        Union(Union(own, if isGeneric then AnalyzeTypeReferences(arguments) else map[]),
              if isTuple then AnalyzeTypeReferences(elements) else map[])
      case ArrayType(_, element) => Union(own, AnalyzeTypeReference(element))
      case PointerType(_, pointedAt) => Union(own, AnalyzeTypeReference(pointedAt))
      case FunctionPointerType(_, returnType, parameterTypes) =>
        Union(Union(own, AnalyzeTypeReference(returnType)), AnalyzeTypeReferences(parameterTypes))
      case OtherType(_) => own
  }

  /** AnalyzeTypeReference of each type, unioned in order. */
  function AnalyzeTypeReferences(ts: seq<TypeTerm>): (r: CiSet)
    ensures Keyed(r)
    decreases ts, 0
  {
    if ts == [] then map[]
    else Union(AnalyzeTypeReferences(ts[..|ts| - 1]), AnalyzeTypeReference(ts[|ts| - 1]))
  }

  /** The independent reading of AnalyzeTypeReference: the folded file `f` is
      the declaring file of a non-external type reached from `t` through
      non-external types only. */
  ghost predicate Reaches(t: TypeTerm, f: string)
    decreases t
  {
    !t.info.isExternal
    && ((DeclaringFile(t).Some? && Fold(DeclaringFile(t).value) == f)
        || match t
           case NamedType(_, isGeneric, arguments, isTuple, elements) =>
             (isGeneric && exists i | 0 <= i < |arguments| :: Reaches(arguments[i], f))
             || (isTuple && exists i | 0 <= i < |elements| :: Reaches(elements[i], f))
           case ArrayType(_, element) => Reaches(element, f)
           case PointerType(_, pointedAt) => Reaches(pointedAt, f)
           case FunctionPointerType(_, returnType, parameterTypes) =>
             Reaches(returnType, f) || exists i | 0 <= i < |parameterTypes| :: Reaches(parameterTypes[i], f)
           case OtherType(_) => false)
  }

  // ---------------------------------------------------------------------------
  // Methods and method bodies

  /** AnalyzeMethodAsync: the return type, then for each parameter its type, its
      type default, the method's type-parameter constraints and its bodies.
      Constraints and bodies are reached only from inside the parameter loop. */
  function AnalyzeMethod(m: MethodSymbol): (r: CiSet)
    ensures Keyed(r)
    decreases m, 3
  {
    var perParameter := Union(ConstraintsDependencies(m.typeParameterConstraints),
                              AnalyzeMethodBodies(m.declaringSyntaxes));
    Union(AnalyzeTypeReference(m.returnType), ParametersDependencies(m.parameters, perParameter))
  }

  /** What the parameter loop adds, parameter by parameter. */
  function ParametersDependencies(parameters: seq<Parameter>, perParameter: CiSet): (r: CiSet)
    ensures Keyed(perParameter) ==> Keyed(r)
  {
    if parameters == [] then map[]
    else
      var p := parameters[|parameters| - 1];
      Union(ParametersDependencies(parameters[..|parameters| - 1], perParameter),
            Union(Union(AnalyzeTypeReference(p.parameterType),
                        if p.typeDefault.Some? then AnalyzeTypeReference(p.typeDefault.value) else map[]),
                  perParameter))
  }

  /** The constraint types of every type parameter, in order. */
  function ConstraintsDependencies(constraints: seq<seq<TypeTerm>>): (r: CiSet)
    ensures Keyed(r)
  {
    if constraints == [] then map[]
    else Union(ConstraintsDependencies(constraints[..|constraints| - 1]),
               AnalyzeTypeReferences(constraints[|constraints| - 1]))
  }

  /** AnalyzeMethodBodyAsync over each declaring syntax reference. */
  function AnalyzeMethodBodies(syntaxes: seq<MethodSyntax>): (r: CiSet)
    ensures Keyed(r)
    decreases syntaxes, 2
  {
    if syntaxes == [] then map[]
    else Union(AnalyzeMethodBodies(syntaxes[..|syntaxes| - 1]), AnalyzeMethodBody(syntaxes[|syntaxes| - 1]))
  }

  /** AnalyzeMethodBodyAsync: first the type references, object creations,
      casts, patterns and local functions; then the lambdas and anonymous
      methods. */
  function AnalyzeMethodBody(syntax: MethodSyntax): (r: CiSet)
    ensures Keyed(r)
    decreases syntax, 2
  {
    Union(TypeReferenceNodes(syntax.descendants), LambdaNodes(syntax.descendants))
  }

  function TypeReferenceNodes(nodes: seq<BodyNode>): (r: CiSet)
    ensures Keyed(r)
    decreases nodes, 1
  {
    if nodes == [] then map[]
    else Union(TypeReferenceNodes(nodes[..|nodes| - 1]), NodeDependencies(nodes[|nodes| - 1]))
  }

  function LambdaNodes(nodes: seq<BodyNode>): (r: CiSet)
    ensures Keyed(r)
    decreases nodes, 1
  {
    if nodes == [] then map[]
    else Union(LambdaNodes(nodes[..|nodes| - 1]), LambdaDependencies(nodes[|nodes| - 1]))
  }

  /** A lambda or anonymous method whose symbol resolves is analysed as a method. */
  function LambdaDependencies(n: BodyNode): (r: CiSet)
    ensures Keyed(r)
    decreases n, 0
  {
    match n
    case LambdaNode(f) => if f.Some? then AnalyzeMethod(f.value) else map[]
    case _ => map[]
  }

  /** A resolved type that is not external is analysed (for a type syntax or a
      cast the source unions the same set twice, which adds nothing). A pattern
      leaves the resolved type null. */
  function NodeDependencies(n: BodyNode): (r: CiSet)
    ensures Keyed(r)
    decreases n, 0
  {
    match n
    case TypeSyntaxNode(t) => ResolvedTypeDependencies(t)
    case ObjectCreationNode(t) => ResolvedTypeDependencies(t)
    case CastNode(t) => ResolvedTypeDependencies(t)
    case PatternNode => map[]
    case LocalFunctionNode(f) => if f.Some? then AnalyzeMethod(f.value) else map[]
    case LambdaNode(_) => map[]
    case OtherNode => map[]
  }

  function ResolvedTypeDependencies(t: Option<TypeTerm>): (r: CiSet)
    ensures Keyed(r)
  {
    if t.Some? && !t.value.info.isExternal then AnalyzeTypeReference(t.value) else map[]
  }

  // ---------------------------------------------------------------------------
  // Types and members

  /** What AnalyzeRootTypeSymbolAsync adds before it walks the members: the base
      type's file; for every non-external interface, again the BASE type's file;
      and for a generic type, for every non-external constraint again the base
      type's file, then the constraint itself, then the type arguments. */
  function RootTypeOwnDependencies(d: TypeDeclaration): (r: CiSet)
    ensures Keyed(r)
  {
    Union(Union(AddDependencies(d.baseType), InterfacesDependencies(d.baseType, d.allInterfaces)),
          if d.isGenericType
          then Union(TypeParametersDependencies(d.baseType, d.typeParameterConstraints),
                     AnalyzeTypeReferences(d.typeArguments))
          else map[])
  }

  function InterfacesDependencies(baseType: Option<TypeTerm>, interfaces: seq<TypeTerm>): (r: CiSet)
    ensures Keyed(r)
  {
    if interfaces == [] then map[]
    else Union(InterfacesDependencies(baseType, interfaces[..|interfaces| - 1]),
               if interfaces[|interfaces| - 1].info.isExternal then map[] else AddDependencies(baseType))
  }

  function ConstraintTypesDependencies(baseType: Option<TypeTerm>, constraints: seq<TypeTerm>): (r: CiSet)
    ensures Keyed(r)
  {
    if constraints == [] then map[]
    else
      var c := constraints[|constraints| - 1];
      Union(Union(ConstraintTypesDependencies(baseType, constraints[..|constraints| - 1]),
                  if c.info.isExternal then map[] else AddDependencies(baseType)),
            AnalyzeTypeReference(c))
  }

  function TypeParametersDependencies(baseType: Option<TypeTerm>, typeParameters: seq<seq<TypeTerm>>): (r: CiSet)
    ensures Keyed(r)
  {
    if typeParameters == [] then map[]
    else Union(TypeParametersDependencies(baseType, typeParameters[..|typeParameters| - 1]),
               ConstraintTypesDependencies(baseType, typeParameters[|typeParameters| - 1]))
  }

  /** The attribute classes of a member that resolve and are not external. */
  function AttributesDependencies(attributeClasses: seq<Option<TypeTerm>>): (r: CiSet)
    ensures Keyed(r)
  {
    if attributeClasses == [] then map[]
    else Union(AttributesDependencies(attributeClasses[..|attributeClasses| - 1]),
               AddDependencies(attributeClasses[|attributeClasses| - 1]))
  }

  /** What AnalyzeMemberAsync returns for a member it has not visited before:
      what its kind contributes, then its attributes. */
  function MemberDependencies(s: Symbol): (r: CiSet)
    ensures Keyed(r)
  {
    Union(KindDependencies(s.kind), AttributesDependencies(s.attributeClasses))
  }

  /** The switch of AnalyzeMemberAsync. A nested type contributes nothing here:
      the member walk marks it visited before it hands it to
      AnalyzeRootTypeSymbolAsync, which then returns nothing (proved by
      AnalyzeMember). */
  function KindDependencies(kind: SymbolKind): (r: CiSet)
    ensures Keyed(r)
  {
    match kind
    case TypeSymbol(_) => map[]
    case FieldSymbol(t) => AnalyzeTypeReference(t)
    case PropertySymbol(t, parameterTypes) => Union(AnalyzeTypeReference(t), AnalyzeTypeReferences(parameterTypes))
    case MethodMember(m) => AnalyzeMethod(m)
    case EventSymbol(t) => AnalyzeTypeReference(t)
    case OtherSymbol => map[]
  }

  /** The members of a type, in order; a member contributes when it is in the
      table and not in `excluded`. A member listed twice contributes once. */
  function MembersDependencies(table: SymbolTable, members: seq<SymbolId>, excluded: set<SymbolId>): (r: CiSet)
    ensures Keyed(r)
  {
    if members == [] then map[]
    else
      var m := members[|members| - 1];
      Union(MembersDependencies(table, members[..|members| - 1], excluded),
            if m in table && m !in excluded then MemberDependencies(table[m]) else map[])
  }

  /** The members of a type that the table knows. */
  function KnownMembers(table: SymbolTable, members: seq<SymbolId>): set<SymbolId>
  {
    set m | m in members && m in table
  }

  predicate IsTypeSymbol(table: SymbolTable, id: SymbolId)
  {
    id in table && table[id].kind.TypeSymbol?
  }

  /** What AnalyzeRootTypeSymbolAsync returns for a type not yet visited. */
  function RootTypeDependencies(table: SymbolTable, id: SymbolId, visited: set<SymbolId>): (r: CiSet)
    ensures Keyed(r)
    requires IsTypeSymbol(table, id)
  {
    var d := table[id].kind.declaration;
    Union(RootTypeOwnDependencies(d), MembersDependencies(table, d.members, visited + {id}))
  }

  // ---------------------------------------------------------------------------
  // The walk over types and members

  /** AnalyzeRootTypeSymbolAsync. A type already visited contributes nothing and
      leaves the visited set alone; otherwise the type and every member the
      table knows become visited, and the result is the type's own
      dependencies and those of its members not visited before. */
  method AnalyzeRootTypeSymbol(table: SymbolTable, id: SymbolId, visited: set<SymbolId>)
    returns (dependencies: CiSet, visitedAfter: set<SymbolId>)
    requires IsTypeSymbol(table, id)
    ensures visited <= visitedAfter
    ensures id in visited ==> dependencies == map[] && visitedAfter == visited
    ensures id !in visited ==>
      visitedAfter == visited + {id} + KnownMembers(table, table[id].kind.declaration.members)
      && dependencies == RootTypeDependencies(table, id, visited)
    decreases table.Keys - visited, 2
  {
    if id in visited {
      return map[], visited;
    }
    var d := table[id].kind.declaration;
    var own := RootTypeOwnDependencies(d);
    var walked;
    walked, visitedAfter := AnalyzeMembers(table, d.members, visited + {id});
    dependencies := Union(own, walked);
  }

  /** The member loop of AnalyzeRootTypeSymbolAsync: the members are analysed in
      order, each with the visited set the previous ones left. */
  method AnalyzeMembers(table: SymbolTable, members: seq<SymbolId>, excluded: set<SymbolId>)
    returns (walked: CiSet, visitedAfter: set<SymbolId>)
    ensures visitedAfter == excluded + KnownMembers(table, members)
    ensures walked == MembersDependencies(table, members, excluded)
    decreases table.Keys - excluded, 1
  {
    walked := map[];
    visitedAfter := excluded;
    var i := 0;
    assert KnownMembers(table, members[..0]) == {};
    while i < |members|
      invariant 0 <= i <= |members|
      invariant excluded <= visitedAfter
      invariant visitedAfter == excluded + KnownMembers(table, members[..i])
      invariant walked == MembersDependencies(table, members[..i], excluded)
    {
      var memberDependencies, v := AnalyzeMember(table, members[i], visitedAfter);
      MemberLoopStep(table, members, i, excluded, visitedAfter, memberDependencies);
      KnownMembersStep(table, members, i);
      walked := Union(walked, memberDependencies);
      visitedAfter := v;
      i := i + 1;
    }
    assert members[..i] == members;
  }

  /** AnalyzeMemberAsync. A null (unknown) or visited member contributes
      nothing; otherwise it becomes visited and contributes MemberDependencies. */
  method AnalyzeMember(table: SymbolTable, member: SymbolId, visited: set<SymbolId>)
    returns (dependencies: CiSet, visitedAfter: set<SymbolId>)
    ensures member !in table || member in visited ==> dependencies == map[] && visitedAfter == visited
    ensures member in table && member !in visited ==>
      dependencies == MemberDependencies(table[member]) && visitedAfter == visited + {member}
    decreases table.Keys - visited, 0
  {
    if member !in table || member in visited {
      return map[], visited;
    }
    visitedAfter := visited + {member};
    var s := table[member];
    if s.kind.TypeSymbol? {
      var nested, v := AnalyzeRootTypeSymbol(table, member, visitedAfter);
      dependencies := nested;
      visitedAfter := v;
    } else {
      dependencies := KindDependencies(s.kind);
    }
    dependencies := Union(dependencies, AttributesDependencies(s.attributeClasses));
  }

  lemma KnownMembersStep(table: SymbolTable, members: seq<SymbolId>, i: nat)
    requires i < |members|
    ensures KnownMembers(table, members[..i + 1])
            == KnownMembers(table, members[..i]) + (if members[i] in table then {members[i]} else {})
  {
    assert members[..i + 1] == members[..i] + [members[i]];
  }

  /** One step of the member loop: a member seen before (in `visited`)
      changes nothing, whether excluded or listed earlier. */
  lemma MembersStep(table: SymbolTable, members: seq<SymbolId>, i: nat, excluded: set<SymbolId>, visited: set<SymbolId>)
    requires i < |members|
    requires visited == excluded + KnownMembers(table, members[..i])
    ensures MembersDependencies(table, members[..i + 1], excluded)
            == Union(MembersDependencies(table, members[..i], excluded),
                     if members[i] in table && members[i] !in visited then MemberDependencies(table[members[i]]) else map[])
  {
    var m := members[i];
    var before := MembersDependencies(table, members[..i], excluded);
    assert members[..i + 1][..i] == members[..i];
    if m in table && m !in excluded && m in visited {
      var j :| 0 <= j < i && members[..i][j] == m;
      MembersDependenciesIncludes(table, members[..i], excluded, j);
      UnionAbsorbs(before, MemberDependencies(table[m]));
    }
    UnionEmpty(before);
  }

  /** The member loop's step, given what AnalyzeMember returned for the i-th member. */
  lemma MemberLoopStep(table: SymbolTable, members: seq<SymbolId>, i: nat, excluded: set<SymbolId>,
                       visited: set<SymbolId>, memberDependencies: CiSet)
    requires i < |members|
    requires visited == excluded + KnownMembers(table, members[..i])
    requires members[i] !in table || members[i] in visited ==> memberDependencies == map[]
    requires members[i] in table && members[i] !in visited ==> memberDependencies == MemberDependencies(table[members[i]])
    ensures MembersDependencies(table, members[..i + 1], excluded)
            == Union(MembersDependencies(table, members[..i], excluded), memberDependencies)
  {
    MembersStep(table, members, i, excluded, visited);
  }

  lemma {:induction false} MembersDependenciesIncludes(table: SymbolTable, members: seq<SymbolId>, excluded: set<SymbolId>, j: nat)
    requires j < |members| && members[j] in table && members[j] !in excluded
    ensures MemberDependencies(table[members[j]]).Keys <= MembersDependencies(table, members, excluded).Keys
    decreases |members|
  {
    var before := members[..|members| - 1];
    if j < |members| - 1 {
      assert before[j] == members[j];
      MembersDependenciesIncludes(table, before, excluded, j);
    }
  }

  // ---------------------------------------------------------------------------
  // Properties of the walk

  /** AnalyzeTypeReference collects exactly the declaring files of the
      non-external types reachable from the term through non-external types. */
  lemma {:induction false} TypeReferenceFiles(t: TypeTerm, f: string)
    ensures f in AnalyzeTypeReference(t) <==> Reaches(t, f)
    decreases t, 1
  {
    if !t.info.isExternal {
      var own := AddDependencies(Some(t));
      assert f in own <==> DeclaringFile(t).Some? && Fold(DeclaringFile(t).value) == f;
      match t
      case NamedType(_, _, arguments, _, elements) =>
        TypeReferencesFiles(arguments, f);
        TypeReferencesFiles(elements, f);
      case ArrayType(_, element) =>
        TypeReferenceFiles(element, f);
      case PointerType(_, pointedAt) =>
        TypeReferenceFiles(pointedAt, f);
      case FunctionPointerType(_, returnType, parameterTypes) =>
        TypeReferenceFiles(returnType, f);
        TypeReferencesFiles(parameterTypes, f);
      case OtherType(_) =>
    }
  }

  lemma {:induction false} TypeReferencesFiles(ts: seq<TypeTerm>, f: string)
    ensures f in AnalyzeTypeReferences(ts) <==> exists i | 0 <= i < |ts| :: Reaches(ts[i], f)
    decreases ts, 0
  {
    if ts != [] {
      var n := |ts| - 1;
      TypeReferencesFiles(ts[..n], f);
      TypeReferenceFiles(ts[n], f);
      SomeLast(ts, ts[..n], t => Reaches(t, f));
    }
  }

  /** A property holds of some element exactly when it holds of some element
      before the last one, or of the last one. */
  lemma SomeLast<T>(ts: seq<T>, prefix: seq<T>, p: T -> bool)
    requires ts != [] && prefix == ts[..|ts| - 1]
    ensures (exists i | 0 <= i < |ts| :: p(ts[i]))
            <==> (exists i | 0 <= i < |prefix| :: p(prefix[i])) || p(ts[|ts| - 1])
  {
    var n := |ts| - 1;
    if exists i | 0 <= i < |ts| :: p(ts[i]) {
      var i :| 0 <= i < |ts| && p(ts[i]);
      if i < n {
        assert prefix[i] == ts[i];
      }
    }
    if exists i | 0 <= i < n :: p(prefix[i]) {
      var i :| 0 <= i < n && p(prefix[i]);
      assert ts[i] == prefix[i];
    }
  }


  /** An external type contributes nothing, whatever it contains. */
  lemma ExternalTypeContributesNothing(t: TypeTerm, f: string)
    requires t.info.isExternal
    ensures AnalyzeTypeReference(t) == map[] && !Reaches(t, f)
  {
  }

  /** Some type of the sequence is not external. */
  predicate AnySourceType(ts: seq<TypeTerm>)
  {
    exists i | 0 <= i < |ts| :: !ts[i].info.isExternal
  }

  /** The interface loop adds the base type's file once some interface is not
      external, and never the interface's own file. */
  lemma {:induction false} InterfacesAddBaseTypeFile(baseType: Option<TypeTerm>, interfaces: seq<TypeTerm>)
    ensures InterfacesDependencies(baseType, interfaces)
            == if AnySourceType(interfaces) then AddDependencies(baseType) else map[]
  {
    if interfaces != [] {
      var n := |interfaces| - 1;
      var a := AddDependencies(baseType);
      var prefix := interfaces[..n];
      InterfacesAddBaseTypeFile(baseType, prefix);
      SomeLast(interfaces, prefix, (t: TypeTerm) => !t.info.isExternal);
      UnionAbsorbs(a, a);
      UnionEmpty(a);
    }
  }

  /** A method without parameters contributes only its return type: its
      constraints and bodies are never walked. */
  lemma ParameterlessMethodSkipsBody(m: MethodSymbol)
    requires m.parameters == []
    ensures AnalyzeMethod(m) == AnalyzeTypeReference(m.returnType)
  {
  }

  /** A method with parameters contributes its return type, every parameter
      type, its constraints and everything its bodies reach. */
  lemma {:induction false} MethodWithParametersWalksBody(m: MethodSymbol)
    requires m.parameters != []
    ensures AnalyzeTypeReference(m.returnType).Keys <= AnalyzeMethod(m).Keys
    ensures ConstraintsDependencies(m.typeParameterConstraints).Keys <= AnalyzeMethod(m).Keys
    ensures AnalyzeMethodBodies(m.declaringSyntaxes).Keys <= AnalyzeMethod(m).Keys
    ensures forall i | 0 <= i < |m.parameters| ::
      AnalyzeTypeReference(m.parameters[i].parameterType).Keys <= AnalyzeMethod(m).Keys
  {
    var perParameter := Union(ConstraintsDependencies(m.typeParameterConstraints),
                              AnalyzeMethodBodies(m.declaringSyntaxes));
    forall i | 0 <= i < |m.parameters|
      ensures AnalyzeTypeReference(m.parameters[i].parameterType).Keys <= ParametersDependencies(m.parameters, perParameter).Keys
    {
      ParameterTypeIncluded(m.parameters, perParameter, i);
    }
  }

  lemma {:induction false} ParameterTypeIncluded(parameters: seq<Parameter>, perParameter: CiSet, i: nat)
    requires i < |parameters|
    ensures AnalyzeTypeReference(parameters[i].parameterType).Keys <= ParametersDependencies(parameters, perParameter).Keys
    decreases |parameters|
  {
    if i < |parameters| - 1 {
      ParameterTypeIncluded(parameters[..|parameters| - 1], perParameter, i);
    }
  }

  /** Two tables that agree on every symbol outside `excluded` give the same
      member dependencies. */
  lemma {:induction false} MembersDependenciesOutside(t1: SymbolTable, t2: SymbolTable, members: seq<SymbolId>, excluded: set<SymbolId>)
    requires forall k | k !in excluded :: (k in t1 <==> k in t2) && (k in t1 ==> t1[k] == t2[k])
    ensures MembersDependencies(t1, members, excluded) == MembersDependencies(t2, members, excluded)
    decreases |members|
  {
    if members != [] {
      MembersDependenciesOutside(t1, t2, members[..|members| - 1], excluded);
    }
  }

  /** The root type's own attributes are never analysed: only its members'
      attributes are. */
  lemma RootAttributesIgnored(table: SymbolTable, id: SymbolId, attributeClasses: seq<Option<TypeTerm>>)
    requires IsTypeSymbol(table, id)
    ensures var changed := table[id := Symbol(attributeClasses, table[id].kind)];
            RootTypeDependencies(changed, id, {}) == RootTypeDependencies(table, id, {})
  {
    var changed := table[id := Symbol(attributeClasses, table[id].kind)];
    var d := table[id].kind.declaration;
    assert changed[id].kind.declaration == d;
    MembersDependenciesOutside(changed, table, d.members, {id});
    assert {} + {id} == {id};
  }

  // ---------------------------------------------------------------------------
  // Type declarations, syntax trees and compilations

  /** One result of the analysis: a file and the files its type depends on.
      The type name the source also records is not modelled. */
  datatype AnalyzeResult = AnalyzeResult(fullPath: string, dependsFullPaths: CiSet)

  /** `FileInfo.Extension` is `.cshtml` or `.razor`, compared ordinally. */
  predicate IsRazorExtension(path: string)
  {
    EndsWith(path, ".cshtml") || EndsWith(path, ".razor")
  }

  /** The razor files of a project: its additional documents with a path, made
      distinct ignoring case (the first spelling is kept) and only then
      restricted to files that exist and have a razor extension. */
  function RazorFiles(documents: seq<string>, fs: FileSystem): (r: CiSet)
    ensures Keyed(r)
    ensures forall k | k in r :: r[k] in documents && r[k] != "" && r[k] in fs.files && IsRazorExtension(r[k])
    ensures forall i | 0 <= i < |documents| && documents[i] != "" && documents[i] in fs.files
                       && IsRazorExtension(documents[i])
                       && (forall j | 0 <= j < i :: Fold(documents[j]) != Fold(documents[i])) ::
              Contains(r, documents[i])
  {
    var distinct := FromSeq(documents);
    map k | k in distinct && distinct[k] != "" && distinct[k] in fs.files && IsRazorExtension(distinct[k])
      :: distinct[k]
  }

  /** A leading trivia that maps a generated tree back to a razor file: a
      checksum pragma naming a `.razor` or `.cshtml` file (ignoring case) that
      exists and is one of the project's razor files. */
  predicate RazorCandidate(t: Trivia, razorFiles: CiSet, fs: FileSystem)
  {
    t.ChecksumPragma?
    && (EndsWithIgnoreCase(t.file, ".razor") || EndsWithIgnoreCase(t.file, ".cshtml"))
    && t.file in fs.files
    && Contains(razorFiles, t.file)
  }

  /** The razor file a tree maps to: the first candidate in trivia order. */
  function FirstRazorCandidate(trivia: seq<Trivia>, razorFiles: CiSet, fs: FileSystem): (r: Option<string>)
    ensures r.None? <==> forall i | 0 <= i < |trivia| :: !RazorCandidate(trivia[i], razorFiles, fs)
    ensures r.Some? ==> exists i | 0 <= i < |trivia| ::
      RazorCandidate(trivia[i], razorFiles, fs) && r.value == trivia[i].file
      && forall j | 0 <= j < i :: !RazorCandidate(trivia[j], razorFiles, fs)
  {
    if trivia == [] then None
    else if RazorCandidate(trivia[0], razorFiles, fs) then Some(trivia[0].file)
    else FirstRazorCandidate(trivia[1..], razorFiles, fs)
  }

  /** IsRazorFile: scans the leading trivia of the tree's root. */
  method IsRazorFile(tree: SyntaxTree, razorFiles: CiSet, fs: FileSystem) returns (razorFilePath: Option<string>)
    ensures razorFilePath == FirstRazorCandidate(tree.leadingTrivia, razorFiles, fs)
  {
    var trivia := tree.leadingTrivia;
    for i := 0 to |trivia|
      invariant FirstRazorCandidate(trivia[i..], razorFiles, fs) == FirstRazorCandidate(trivia, razorFiles, fs)
    {
      assert trivia[i..][1..] == trivia[i + 1..];
      var t := trivia[i];
      if t.ChecksumPragma? && (EndsWithIgnoreCase(t.file, ".razor") || EndsWithIgnoreCase(t.file, ".cshtml")) {
        if t.file !in fs.files {
          continue;
        }
        if Contains(razorFiles, t.file) {
          return Some(t.file);
        }
      }
    }
    return None;
  }

  /** The cleanup keeps a dependency that exists and is not the source file,
      ignoring case. */
  predicate KeptDependency(dependency: string, sourceFile: string, fs: FileSystem)
  {
    dependency in fs.files && !EqualsIgnoreCase(dependency, sourceFile)
  }

  /** None of the files held is `file`, ignoring case. */
  predicate Avoids(files: CiSet, file: string)
  {
    forall k | k in files :: !EqualsIgnoreCase(files[k], file)
  }

  /** Every file held exists. */
  predicate AllExist(files: CiSet, fs: FileSystem)
  {
    forall k | k in files :: files[k] in fs.files
  }

  /** The cleaned dependencies of a declaration: no self edge, only files that
      exist, each spelled as the walk found it. */
  function CleanedDependencies(dependencies: CiSet, sourceFile: string, fs: FileSystem): (r: CiSet)
    requires Keyed(dependencies)
    ensures Avoids(r, sourceFile) && AllExist(r, fs)
    ensures Keyed(r) && !Contains(r, sourceFile)
    ensures forall k | k in r :: k in dependencies && r[k] == dependencies[k]
  {
    map k | k in dependencies && KeptDependency(dependencies[k], sourceFile, fs) :: dependencies[k]
  }

  /** The cleanup loop of AnalyzeTypeDeclarationAsync, over the dependencies in
      whatever order the set yields them. */
  method CleanDependencies(dependencies: CiSet, sourceFile: string, fs: FileSystem) returns (clean: CiSet)
    requires Keyed(dependencies)
    ensures clean == CleanedDependencies(dependencies, sourceFile, fs)
  {
    clean := map[];
    var remaining := dependencies.Keys;
    while remaining != {}
      invariant remaining <= dependencies.Keys
      invariant clean == map k | k in dependencies.Keys - remaining && KeptDependency(dependencies[k], sourceFile, fs)
                          :: dependencies[k]
      decreases remaining
    {
      var k :| k in remaining;
      var dependency := dependencies[k];
      if dependency in fs.files {
        if !EqualsIgnoreCase(dependency, sourceFile) {
          clean := Add(clean, dependency);
        }
      }
      remaining := remaining - {k};
    }
  }

  /** The file a declaration's result is filed under: the tree's own file when
      it exists, otherwise the razor file the tree maps to, if any. */
  function ResultPath(tree: SyntaxTree, razorFiles: CiSet, fs: FileSystem): Option<string>
  {
    if tree.filePath in fs.files then Some(tree.filePath)
    else FirstRazorCandidate(tree.leadingTrivia, razorFiles, fs)
  }

  /** The semantic model declares a type symbol of the table for the declaration. */
  predicate DeclaresType(table: SymbolTable, declaration: TypeDeclarationSyntax)
  {
    declaration.declaredSymbol.Some? && IsTypeSymbol(table, declaration.declaredSymbol.value)
  }

  /** What AnalyzeTypeDeclarationAsync yields: nothing when the file is missing
      and maps to no razor file, or when no type is declared; otherwise one
      result, whose dependencies are the cleaned dependencies of a walk from a
      fresh visited set. The self-edge check is against the tree's own file,
      also when the result is filed under a razor file. */
  function TypeDeclarationResults(table: SymbolTable, declaration: TypeDeclarationSyntax, tree: SyntaxTree,
                                  razorFiles: CiSet, fs: FileSystem): (r: seq<AnalyzeResult>)
    ensures |r| <= 1
    ensures r == [] <==> ResultPath(tree, razorFiles, fs).None? || !DeclaresType(table, declaration)
    ensures r != [] ==>
      r[0].fullPath == ResultPath(tree, razorFiles, fs).value
      && r[0].fullPath in fs.files
      && Avoids(r[0].dependsFullPaths, tree.filePath)
      && AllExist(r[0].dependsFullPaths, fs)
      && Keyed(r[0].dependsFullPaths)
  {
    var path := ResultPath(tree, razorFiles, fs);
    if path.None? || !DeclaresType(table, declaration) then []
    else
      var dependencies := RootTypeDependencies(table, declaration.declaredSymbol.value, {});
      [AnalyzeResult(path.value, CleanedDependencies(dependencies, tree.filePath, fs))]
  }

  /** AnalyzeTypeDeclarationAsync. */
  method AnalyzeTypeDeclaration(table: SymbolTable, declaration: TypeDeclarationSyntax, tree: SyntaxTree,
                                razorFiles: CiSet, fs: FileSystem) returns (results: seq<AnalyzeResult>)
    ensures results == TypeDeclarationResults(table, declaration, tree, razorFiles, fs)
  {
    var filePath := tree.filePath;
    if filePath !in fs.files {
      var razorFilePath := IsRazorFile(tree, razorFiles, fs);
      if razorFilePath.None? {
        return [];
      }
      filePath := razorFilePath.value;
    }
    if !DeclaresType(table, declaration) {
      return [];
    }
    var dependencies, visited := AnalyzeRootTypeSymbol(table, declaration.declaredSymbol.value, {});
    var clean := CleanDependencies(dependencies, tree.filePath, fs);
    return [AnalyzeResult(filePath, clean)];
  }

  /** A result does not list its own file among its dependencies. */
  predicate NoSelfEdge(x: AnalyzeResult)
  {
    Avoids(x.dependsFullPaths, x.fullPath)
  }

  /** A result whose file and dependencies all exist. */
  predicate ExistingResult(x: AnalyzeResult, fs: FileSystem)
  {
    x.fullPath in fs.files && AllExist(x.dependsFullPaths, fs)
  }

  /** The results of a tree's type declarations, in order. */
  function DeclarationsResults(table: SymbolTable, declarations: seq<TypeDeclarationSyntax>, tree: SyntaxTree,
                               razorFiles: CiSet, fs: FileSystem): (r: seq<AnalyzeResult>)
    ensures |r| <= |declarations|
    ensures forall x | x in r :: ExistingResult(x, fs) && Keyed(x.dependsFullPaths)
    ensures tree.filePath in fs.files ==> forall x | x in r :: x.fullPath == tree.filePath && NoSelfEdge(x)
  {
    if declarations == [] then []
    else
      DeclarationsResults(table, declarations[..|declarations| - 1], tree, razorFiles, fs)
      + TypeDeclarationResults(table, declarations[|declarations| - 1], tree, razorFiles, fs)
  }

  lemma DeclarationsResultsStep(table: SymbolTable, declarations: seq<TypeDeclarationSyntax>, i: nat, tree: SyntaxTree,
                                razorFiles: CiSet, fs: FileSystem)
    requires i < |declarations|
    ensures DeclarationsResults(table, declarations[..i + 1], tree, razorFiles, fs)
            == DeclarationsResults(table, declarations[..i], tree, razorFiles, fs)
               + TypeDeclarationResults(table, declarations[i], tree, razorFiles, fs)
  {
    assert declarations[..i + 1][..i] == declarations[..i];
  }

  /** What AnalyzeSyntaxTreeAsync yields: nothing for a tree without a path. */
  function SyntaxTreeResults(table: SymbolTable, tree: SyntaxTree, razorFiles: CiSet, fs: FileSystem): seq<AnalyzeResult>
  {
    if tree.filePath == "" then [] else DeclarationsResults(table, tree.typeDeclarations, tree, razorFiles, fs)
  }

  /** AnalyzeSyntaxTreeAsync. */
  method AnalyzeSyntaxTree(table: SymbolTable, tree: SyntaxTree, razorFiles: CiSet, fs: FileSystem)
    returns (results: seq<AnalyzeResult>)
    ensures results == SyntaxTreeResults(table, tree, razorFiles, fs)
  {
    if tree.filePath == "" {
      return [];
    }
    results := [];
    var declarations := tree.typeDeclarations;
    for i := 0 to |declarations|
      invariant results == DeclarationsResults(table, declarations[..i], tree, razorFiles, fs)
    {
      var inner := AnalyzeTypeDeclaration(table, declarations[i], tree, razorFiles, fs);
      DeclarationsResultsStep(table, declarations, i, tree, razorFiles, fs);
      results := results + inner;
    }
    assert declarations[..|declarations|] == declarations;
  }

  /** Every tree has no path or a path to an existing file: no result is then
      filed under a razor file. */
  predicate TreesExist(trees: seq<SyntaxTree>, fs: FileSystem)
  {
    forall t | t in trees :: t.filePath == "" || t.filePath in fs.files
  }

  /** The results of a compilation's trees, in order. */
  function TreesResults(table: SymbolTable, trees: seq<SyntaxTree>, razorFiles: CiSet, fs: FileSystem)
    : (r: seq<AnalyzeResult>)
    ensures forall x | x in r :: ExistingResult(x, fs) && Keyed(x.dependsFullPaths)
    ensures TreesExist(trees, fs) ==> forall x | x in r :: NoSelfEdge(x)
  {
    if trees == [] then []
    else
      assert TreesExist(trees, fs) ==> TreesExist(trees[..|trees| - 1], fs);
      TreesResults(table, trees[..|trees| - 1], razorFiles, fs)
      + SyntaxTreeResults(table, trees[|trees| - 1], razorFiles, fs)
  }

  /** What AnalyzeCompilationAsync yields. */
  function CompilationResults(c: Compilation, fs: FileSystem): seq<AnalyzeResult>
  {
    TreesResults(c.table, c.syntaxTrees, RazorFiles(c.additionalDocuments, fs), fs)
  }

  /** AnalyzeCompilationAsync. */
  method AnalyzeCompilation(c: Compilation, fs: FileSystem) returns (results: seq<AnalyzeResult>)
    ensures results == CompilationResults(c, fs)
  {
    var razorFiles := RazorFiles(c.additionalDocuments, fs);
    results := [];
    var trees := c.syntaxTrees;
    for i := 0 to |trees|
      invariant results == TreesResults(c.table, trees[..i], razorFiles, fs)
    {
      var inner := AnalyzeSyntaxTree(c.table, trees[i], razorFiles, fs);
      TreesResultsStep(c.table, trees, i, razorFiles, fs);
      results := results + inner;
    }
    assert trees[..|trees|] == trees;
  }

  lemma TreesResultsStep(table: SymbolTable, trees: seq<SyntaxTree>, i: nat, razorFiles: CiSet, fs: FileSystem)
    requires i < |trees|
    ensures TreesResults(table, trees[..i + 1], razorFiles, fs)
            == TreesResults(table, trees[..i], razorFiles, fs) + SyntaxTreeResults(table, trees[i], razorFiles, fs)
  {
    assert trees[..i + 1][..i] == trees[..i];
  }

  /** The results of all compilations of a solution. The source gathers them
      in parallel into an unordered bag; the model concatenates them in order,
      and everything downstream is stated independently of that order. */
  function SolutionResults(compilations: seq<Compilation>, fs: FileSystem): (r: seq<AnalyzeResult>)
    ensures forall x | x in r :: ExistingResult(x, fs) && Keyed(x.dependsFullPaths)
    ensures (forall c | c in compilations :: TreesExist(c.syntaxTrees, fs)) ==> forall x | x in r :: NoSelfEdge(x)
  {
    if compilations == [] then []
    else
      SolutionResults(compilations[..|compilations| - 1], fs) + CompilationResults(compilations[|compilations| - 1], fs)
  }

  /** The gathering loop of AnalyzeSolutionAsync, run one compilation after another. */
  method AnalyzeCompilations(compilations: seq<Compilation>, fs: FileSystem) returns (results: seq<AnalyzeResult>)
    ensures results == SolutionResults(compilations, fs)
  {
    results := [];
    for i := 0 to |compilations|
      invariant results == SolutionResults(compilations[..i], fs)
    {
      var inner := AnalyzeCompilation(compilations[i], fs);
      SolutionResultsStep(compilations, i, fs);
      results := results + inner;
    }
    assert compilations[..|compilations|] == compilations;
  }

  lemma SolutionResultsStep(compilations: seq<Compilation>, i: nat, fs: FileSystem)
    requires i < |compilations|
    ensures SolutionResults(compilations[..i + 1], fs)
            == SolutionResults(compilations[..i], fs) + CompilationResults(compilations[i], fs)
  {
    assert compilations[..i + 1][..i] == compilations[..i];
  }
}
