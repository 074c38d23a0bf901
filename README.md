# NpgsqlEnumHelper in Dafny

NpgsqlEnumHelper is a Roslyn incremental source generator. It runs in four steps:

1. It finds the enum declarations marked with `[NpgsqlEnum]`, first with a cheap syntactic filter and then with a name-based semantic filter.
2. It removes duplicate candidates.
3. It extracts one descriptor per candidate whose symbol resolves: the enum's display name plus an optional PostgreSQL alias. The alias is the last non-null `Alias` named argument of a marker attribute.
4. It renders a single C# file, `NpgsqlEnumHelper.g.cs`. That file registers every enum with Npgsql's type mapper (`MapPostgresEnums`) and with EF Core's model builder (`RegisterPostgresEnums`).

The helper `GetNamespace` walks a node's parent chain and builds the dotted namespace the node is declared in.

This project models that core in Dafny 4.11:

- `wrappers.dfy`: `Option`.
- `roslyn.dfy`: what the compiler hands the generator, written as plain data. The output context is a class whose list of added sources the generator extends.
- `text.dfy`: the text the generator builds.
  - A run of `AppendLine` calls (`AppendLines`) and lines joined by terminators (`JoinLines`).
  - Reading text back as lines (`SplitLines`), with the round trip `SplitJoin`.
  - Selecting the lines that start with a prefix.
  - Dot-joining.
- `helpers.dfy` (`Helpers.cs`):
  - `GetNamespace` as written, and the version its comments describe.
  - The semantic filter `GetSemanticTargetForGeneration`.
- `generator.dfy` (`NpgsqlEnumHelper.cs`):
  - The syntactic filter.
  - `Enumerable.Distinct` over candidates.
  - Descriptor extraction (`GetTypesToGenerate`).
  - Rendering (`GenerateClass`).
  - The orchestration in `Execute`.

The code's loops are methods with loop invariants, each proved against a specification function:

- `GetTypesToGenerate`: the outer loop over candidates and the inner loop over alias arguments.
- `GenerateClass`: the two statement loops over a string buffer.
- `GetNamespace`: its two upward walks.
- `GetSemanticTargetForGeneration`: its search with early return.

The properties are lemmas about those functions.

The model follows the code as written. In three places the code does not do what it evidently means to do. Each is listed under Findings and is also modelled in corrected form:

- **Enclosing namespaces.** The comment on Helpers.cs:43 says each enclosing namespace is added as a prefix. The code prefixes the inner name instead.
- **Marker lookup.** The lookup at NpgsqlEnumHelper.cs:79 passes `nameof(NpgsqlEnumAttribute)`, which is the class's simple name. A metadata-name lookup needs the namespace-qualified name, and the attribute class is declared in namespace `NpgsqlEnumHelper.Attributes` (NpgsqlEnumAttribute.cs:1). So the shipped attribute is never found, and nothing is generated.
- **No return in the mapper method.** The generated `MapPostgresEnums` is declared to return `INpgsqlTypeMapper` (NpgsqlEnumHelper.cs:54). The template writes no `return` into its body, so the generated method cannot compile (C# error CS0161). `NoReturnStatement` states this.

`Execute` and `GenerateClass` keep the lookup and the template exactly as written. The corrected forms (`GetNamespaceCorrected`, `CorrectedMarkerType`, `CorrectedTemplateLines`) are stated beside them, with their intended properties proved.

## Model

| member | source | states |
|---|---|---|
| Helpers.FirstNamespaceFrom | NpgsqlEnumHelper/Helpers.cs:20-29 | The upward walk finds no namespace exactly when no block or file-scoped namespace lies at or above the start. Otherwise it stops at the nearest one, passing over every non-namespace ancestor before it. |
| Helpers.NestingDepth | NpgsqlEnumHelper/Helpers.cs:39-46 | The second walk climbs exactly the run of block namespaces directly enclosing the first namespace. It stops at the first parent that is not a block namespace, and it stays inside the finite chain. |
| Helpers.GetNamespace | NpgsqlEnumHelper/Helpers.cs:12-50 | The method's result is `NamespaceOf` of the parent chain: "" without a namespace ancestor, else the dotted parts built exactly as the code's two loops build them. |
| Helpers.WrittenPartsAt | NpgsqlEnumHelper/Helpers.cs:35-45 | The parts the code writes are the names of the enclosing namespaces, from the second-outermost inward. The innermost name is written once more at the end. |
| Helpers.NoEnclosingNamespace | NpgsqlEnumHelper/Helpers.cs:35-41 | When the nearest namespace has no enclosing block namespace, the result is exactly that namespace's name, as written and as intended. |
| Helpers.PartsPerEnclosingNamespace | NpgsqlEnumHelper/Helpers.cs:39-46 | Each enclosing block namespace adds exactly one dotted part: nesting depth d gives d + 1 parts, as written and as intended. |
| Helpers.NonNamespaceAncestorSkipped | NpgsqlEnumHelper/Helpers.cs:20-29 | A non-namespace ancestor (an enclosing class, say) below the namespaces changes neither result. |
| Helpers.WrittenRepeatsInnerDropsOuter | NpgsqlEnumHelper/Helpers.cs:43-45 | With at least one enclosing namespace, the code's parts are the intended parts without the outermost name, followed by the innermost name a second time. |
| Helpers.NestedNamespaceCounterexample | NpgsqlEnumHelper/Helpers.cs:44 | For `namespace Outer { namespace Inner { enum } }` the code yields "Inner.Inner"; the intended result is "Outer.Inner". |
| Helpers.IntendedPartsAt | NpgsqlEnumHelper/Helpers.cs:43 | The intended parts list every enclosing namespace name, outermost first, down to the nearest one. |
| Helpers.GetNamespaceCorrected | NpgsqlEnumHelper/Helpers.cs:43 | The corrected walk, which prefixes the enclosing namespace's name, returns `IntendedNamespaceOf` of the chain. |
| Helpers.Flatten | NpgsqlEnumHelper/Helpers.cs:58 | An attribute is in the flattened sequence exactly when it is in one of the attribute lists. |
| Helpers.GetSemanticTargetForGeneration | NpgsqlEnumHelper/Helpers.cs:52-70 | The result is the declaration itself exactly when some attribute in some list binds to a method of a type whose simple name is "NpgsqlEnumAttribute", and null otherwise. The result does not depend on the matching attribute's position. |
| Helpers.UnresolvedAttributeIgnored | NpgsqlEnumHelper/Helpers.cs:60 | Inserting an attribute that binds to no method symbol at any position of any attribute list never changes whether a declaration is a target. |
| Helpers.UnresolvedAttributeListIgnored | NpgsqlEnumHelper/Helpers.cs:58-60 | Inserting, at any position among the attribute lists, a list whose attributes all bind to no method symbol never changes whether a declaration is a target. |
| PostgresEnumSourceGenerator.IsSyntaxTargetForGeneration | NpgsqlEnumHelper/NpgsqlEnumHelper.cs:127 | Only enum declarations pass the syntactic filter. A declaration without attribute lists never passes, and one carrying any attribute always does. |
| PostgresEnumSourceGenerator.SemanticTargetsPassSyntaxFilter | NpgsqlEnumHelper/NpgsqlEnumHelper.cs:127 | Every declaration the semantic filter keeps passes the syntactic filter: it is an enum declaration with at least one attribute list. |
| PostgresEnumSourceGenerator.Distinct | NpgsqlEnumHelper/NpgsqlEnumHelper.cs:36 | `enums.Distinct()` keeps every candidate and nothing else, each exactly once. |
| PostgresEnumSourceGenerator.DistinctFrom | NpgsqlEnumHelper/NpgsqlEnumHelper.cs:36 | Deduplication keeps exactly the candidates not yet seen, each once. |
| PostgresEnumSourceGenerator.DistinctFromAppend | NpgsqlEnumHelper/NpgsqlEnumHelper.cs:36 | Deduplication keeps first occurrences in order. The distinct candidates of a + b are those of a, then those of b not already in a. |
| PostgresEnumSourceGenerator.RepeatedDiscoveryCollapses | NpgsqlEnumHelper/NpgsqlEnumHelper.cs:36 | Discovering candidates again leaves the deduplicated sequence unchanged. |
| PostgresEnumSourceGenerator.MarkerArgumentsAppend | NpgsqlEnumHelper/NpgsqlEnumHelper.cs:94-96 | The marker attributes' named arguments are taken attribute by attribute, in attribute order. |
| PostgresEnumSourceGenerator.LastAliasIndex | NpgsqlEnumHelper/NpgsqlEnumHelper.cs:98-104 | Among a prefix of the pairs, there is no alias exactly when no pair has key `Alias` and a non-null value. Otherwise the chosen pair is such a pair with none after it. |
| PostgresEnumSourceGenerator.LastAliasCharacterized | NpgsqlEnumHelper/NpgsqlEnumHelper.cs:92-104 | The alias is null when no pair is an alias argument. Otherwise it is the value of the alias argument that has no alias argument after it. `AliasOf` applies this to the marker attributes' arguments. |
| PostgresEnumSourceGenerator.LastAliasAppend | NpgsqlEnumHelper/NpgsqlEnumHelper.cs:98-104 | Later arguments win: the alias of a + b is b's when b sets one, and a's otherwise. |
| PostgresEnumSourceGenerator.ForeignAttributeIgnored | NpgsqlEnumHelper/NpgsqlEnumHelper.cs:95 | An attribute whose class is not the marker type never affects the enum's alias (`AliasOf`), wherever it sits. |
| PostgresEnumSourceGenerator.NonAliasArgumentIgnored | NpgsqlEnumHelper/NpgsqlEnumHelper.cs:100 | An argument with another key, or with a null value, never affects the alias, wherever it sits. |
| PostgresEnumSourceGenerator.LastMarkerAliasWins | NpgsqlEnumHelper/NpgsqlEnumHelper.cs:94-104 | A marker attribute placed last with `Alias = v` makes the enum's alias (`AliasOf`) v, whatever comes before it. |
| PostgresEnumSourceGenerator.ResolvedSymbols | NpgsqlEnumHelper/NpgsqlEnumHelper.cs:88 | There are never more resolved symbols than candidates. |
| PostgresEnumSourceGenerator.ResolvedSymbolsFromCandidates | NpgsqlEnumHelper/NpgsqlEnumHelper.cs:83-88 | The resolved symbols are exactly the declared symbols of the candidates that resolve. Every resolved symbol comes from a candidate, and every candidate that resolves contributes its symbol. There are none exactly when no candidate resolves to a named type. |
| PostgresEnumSourceGenerator.CandidateDescriptors | NpgsqlEnumHelper/NpgsqlEnumHelper.cs:88-107 | One candidate yields at most one descriptor. |
| PostgresEnumSourceGenerator.Descriptors | NpgsqlEnumHelper/NpgsqlEnumHelper.cs:79-108 | Without the marker type there are no descriptors, whatever the candidates. Otherwise there are never more descriptors than candidates. |
| PostgresEnumSourceGenerator.DescriptorsDescribeResolved | NpgsqlEnumHelper/NpgsqlEnumHelper.cs:83-108 | With the marker type, there is exactly one descriptor per resolved candidate, in candidate order. The k-th descriptor is `Describe` of the k-th resolved symbol: its display name (line 90) and its alias (`AliasOf`, lines 92-104). |
| PostgresEnumSourceGenerator.GetTypesToGenerate | NpgsqlEnumHelper/NpgsqlEnumHelper.cs:75-111 | The two nested loops return exactly `Descriptors` of the marker type and the candidates. |
| PostgresEnumSourceGenerator.MapLines | NpgsqlEnumHelper/NpgsqlEnumHelper.cs:56-59 | The first loop writes one mapper statement per descriptor. |
| PostgresEnumSourceGenerator.RegisterLines | NpgsqlEnumHelper/NpgsqlEnumHelper.cs:64-67 | The second loop writes one model-builder statement per descriptor. |
| PostgresEnumSourceGenerator.StatementsAt | NpgsqlEnumHelper/NpgsqlEnumHelper.cs:56-67 | The k-th statement of each loop is the statement for the k-th descriptor. |
| PostgresEnumSourceGenerator.TemplateLines | NpgsqlEnumHelper/NpgsqlEnumHelper.cs:44-73 | The file has 14 fixed lines plus two per descriptor. |
| PostgresEnumSourceGenerator.TemplateLayout | NpgsqlEnumHelper/NpgsqlEnumHelper.cs:47-70 | The file's line positions: lines 0-8 are the header; then come the mapper statements in descriptor order, the three lines between the methods, the model-builder statements in descriptor order, and the two closing lines. |
| PostgresEnumSourceGenerator.GenerateClass | NpgsqlEnumHelper/NpgsqlEnumHelper.cs:44-73 | The buffer the method builds is exactly the template's lines joined by terminators, with none after the final brace. The namespace line carries its own `\n`, which leaves an empty line after it. |
| PostgresEnumSourceGenerator.EmptyRendering | NpgsqlEnumHelper/NpgsqlEnumHelper.cs:47-70 | With no descriptors the text is exactly the header, two empty method bodies and a closing brace with no trailing terminator. |
| PostgresEnumSourceGenerator.HeaderHasNoStatement | NpgsqlEnumHelper/NpgsqlEnumHelper.cs:47-55 | No header line is a mapper, model-builder or return statement. |
| PostgresEnumSourceGenerator.MiddleAndFooterHaveNoStatement | NpgsqlEnumHelper/NpgsqlEnumHelper.cs:60-70 | No line between or after the two bodies is a statement. |
| PostgresEnumSourceGenerator.MapLineShape | NpgsqlEnumHelper/NpgsqlEnumHelper.cs:58 | A mapper statement starts with `\t\tmapper.MapEnum<` and is neither a model-builder nor a return statement. |
| PostgresEnumSourceGenerator.RegisterLineShape | NpgsqlEnumHelper/NpgsqlEnumHelper.cs:66 | A model-builder statement starts with `\t\tbuilder.HasPostgresEnum<` and is neither a mapper nor a return statement. |
| PostgresEnumSourceGenerator.StatementShapes | NpgsqlEnumHelper/NpgsqlEnumHelper.cs:56-67 | Each statement run holds only statements of its own kind. |
| PostgresEnumSourceGenerator.MapStatementsInOrder | NpgsqlEnumHelper/NpgsqlEnumHelper.cs:56-59 | The file's mapper statements are exactly one per descriptor, in descriptor order. |
| PostgresEnumSourceGenerator.RegisterStatementsInOrder | NpgsqlEnumHelper/NpgsqlEnumHelper.cs:64-67 | The file's model-builder statements are exactly one per descriptor, in descriptor order. |
| PostgresEnumSourceGenerator.NoReturnStatement | NpgsqlEnumHelper/NpgsqlEnumHelper.cs:54-60 | Whatever the descriptors, the file holds no `return` statement: the mapper method's body never returns its mapper. |
| PostgresEnumSourceGenerator.ReturnMapperShape | NpgsqlEnumHelper/NpgsqlEnumHelper.cs:54 | The declared return type calls for a `return mapper;` statement. That statement is a return statement, and neither a mapper nor a model-builder statement. |
| PostgresEnumSourceGenerator.CorrectedTemplateLines | NpgsqlEnumHelper/NpgsqlEnumHelper.cs:54-60 | The corrected file has one line more than the template as written. |
| PostgresEnumSourceGenerator.CorrectedMapperReturnsOnce | NpgsqlEnumHelper/NpgsqlEnumHelper.cs:54-60 | In the corrected file, the mapper method returns exactly once: right after its statements and before its closing brace. |
| PostgresEnumSourceGenerator.CorrectedStatementsUnchanged | NpgsqlEnumHelper/NpgsqlEnumHelper.cs:56-67 | The correction leaves both methods' statements as they were: one per descriptor, in descriptor order. |
| PostgresEnumSourceGenerator.AbsentAliasRendersAsNull | NpgsqlEnumHelper/NpgsqlEnumHelper.cs:66 | A missing alias is passed as the four characters null, so it renders exactly like an alias spelled "null". |
| PostgresEnumSourceGenerator.AliasWrittenVerbatim | NpgsqlEnumHelper/NpgsqlEnumHelper.cs:66 | A present alias is written between the quotes verbatim, without escaping. |
| PostgresEnumSourceGenerator.SkeletonSingleLine | NpgsqlEnumHelper/NpgsqlEnumHelper.cs:47-70 | No fixed line of the file holds a line terminator. |
| PostgresEnumSourceGenerator.StatementsSingleLine | NpgsqlEnumHelper/NpgsqlEnumHelper.cs:58-66 | Statements stay one line each when no enum name or alias holds a line terminator. |
| PostgresEnumSourceGenerator.ClassTextReadsBack | NpgsqlEnumHelper/NpgsqlEnumHelper.cs:44-73 | Provided no name or alias holds a line terminator, cutting the generated text at its terminators gives back exactly the template's lines. So the text itself has one mapper and one model-builder statement per descriptor, in order, and no return statement. |
| PostgresEnumSourceGenerator.GeneratedSourcesFor | NpgsqlEnumHelper/NpgsqlEnumHelper.cs:32-42 | One run adds at most one source, always named `NpgsqlEnumHelper.g.cs`. It adds one exactly when there are candidates and the distinct candidates yield a descriptor. `GeneratedSources` applies it to the marker type found by the lookup at line 79. |
| PostgresEnumSourceGenerator.Execute | NpgsqlEnumHelper/NpgsqlEnumHelper.cs:32-42 | The context's sources become the old ones followed by `GeneratedSources` of the run. Nothing else is added. |
| Roslyn.SourceProductionContext.AddSource | NpgsqlEnumHelper/NpgsqlEnumHelper.cs:41 | Adding a source appends it, with its hint name and text, to the sources added so far. |
| PostgresEnumSourceGenerator.NothingToGenerate | NpgsqlEnumHelper/NpgsqlEnumHelper.cs:34-38 | Nothing is added when there are no candidates, when the marker lookup fails (extraction then returns early, line 81), or when no candidate resolves. |
| PostgresEnumSourceGenerator.OneFileGeneratedFor | NpgsqlEnumHelper/NpgsqlEnumHelper.cs:38-41 | Given a marker type and one resolvable candidate, exactly one file is added, holding the rendering of the distinct candidates' descriptors. |
| PostgresEnumSourceGenerator.OneFileGenerated | NpgsqlEnumHelper/NpgsqlEnumHelper.cs:40-41 | With the marker type and one resolvable candidate, exactly one file is added. It is named `NpgsqlEnumHelper.g.cs` and holds the rendering of the distinct candidates' descriptors. |
| PostgresEnumSourceGenerator.ShippedAttributeNeverFound | NpgsqlEnumHelper/NpgsqlEnumHelper.cs:79 | Suppose a compilation knows the attribute class only by its namespace-qualified name. Then the lookup by `nameof(NpgsqlEnumAttribute)` fails, and nothing is generated, whatever the candidates. |
| PostgresEnumSourceGenerator.QualifiedLookupFindsShippedAttribute | NpgsqlEnumHelper/NpgsqlEnumHelper.cs:79 | Looked up by its full metadata name, the same class is found. One resolvable candidate is then enough for the file to be generated. |
| PostgresEnumSourceGenerator.RepeatedDiscoveryAddsNothing | NpgsqlEnumHelper/NpgsqlEnumHelper.cs:36 | Candidates discovered again change nothing in what is generated. |
| PostgresEnumSourceGenerator.EachDiscoveredEnumMappedOnce | NpgsqlEnumHelper/NpgsqlEnumHelper.cs:56-59 | In the generated file, each distinct resolvable candidate (deduplicated at line 36, extracted at lines 83-108) has exactly one mapper statement naming its symbol, in order of first discovery. |

## Left out

- **Pipeline wiring.** `Initialize` (NpgsqlEnumHelper.cs:16-30) is host plumbing: the syntax provider, the null filter, `Combine`, `Collect` and the output registration. The two filters and `Execute` are modelled; the wiring between them is not.
- **Compiler lookups.**
  - `GetSemanticModel`, `GetDeclaredSymbol`, `GetSymbolInfo`, `SymbolEqualityComparer` and `ToString()` of symbols and constants are compiler services.
  - Their outcomes appear as data: an optional declared symbol with its display name, attribute bindings, and type ids compared by equality.
  - `GetTypeByMetadataName` is a lookup in a map from full metadata names to type ids. The compiler also returns null when several referenced assemblies define the same name; that case is not modelled.
- **Named-argument values.** A named argument's value is modelled as a string, or None when the constant is null. The conversion of non-string constants to text is not modelled.
- **Cancellation.** `ct.ThrowIfCancellationRequested()` (NpgsqlEnumHelper.cs:85) is a host signal; a cancelled run is not modelled.
- **Output encoding.** `SourceText.From` and the UTF-8 encoding (NpgsqlEnumHelper.cs:41) are not modelled; the added source carries the generated string itself.
- **Line terminator.** `Environment.NewLine` is fixed to "\n". The Windows terminator "\r\n" is not modelled. The namespace line's own "\n" (NpgsqlEnumHelper.cs:50) is a literal, so it reads as an empty line only under this choice.
- **Distinct's comparer.** Syntax nodes compare by reference. Each candidate carries a node id, and `Distinct` compares candidates as values, so two different nodes never compare equal.
- **Default arrays.** An `ImmutableArray` that is default, and not merely empty, is modelled as the empty sequence (NpgsqlEnumHelper.cs:34).
- **Parent chain.** `GetNamespace`'s parent chain is given as the finite sequence of the node's ancestors' kinds, nearest first. `Name.ToString()` of a namespace is its name string.
- **String buffer.** `GenerateClass`'s `StringBuilder` is a local string that each `AppendLine`/`Append` extends. It never escapes the method, so no aliasing is lost.
- **Other files.** NpgsqlEnumHelper.Attributes/NpgsqlEnumAttribute.cs is not part of this model. Only its namespace, its class name and its property name `Alias` matter, and all three are constants here. The demo program and its shims are not part of this model either.
- **Unused helper.** `GetNamespace` is not called by the generator itself. It is modelled on its own.
- PostgresEnumSourceGenerator.ClassTextReadsBack: stated only for enum names and aliases without a line terminator. An alias holding one is written unescaped and splits its statement across lines.

## Findings

| source | as written | input that shows it | evidently intended | confidence | as-written member | corrected member |
|---|---|---|---|---|---|---|
| NpgsqlEnumHelper/NpgsqlEnumHelper.cs:79 | The marker type is looked up by `nameof(NpgsqlEnumAttribute)`, the bare simple name. A metadata-name lookup needs the namespace-qualified name. | a compilation referencing the shipped attribute, declared in namespace `NpgsqlEnumHelper.Attributes`: the lookup returns null, so no file is ever generated | look the class up by its full metadata name, "NpgsqlEnumHelper.Attributes.NpgsqlEnumAttribute" | not executed | PostgresEnumSourceGenerator.ShippedAttributeNeverFound | PostgresEnumSourceGenerator.QualifiedLookupFindsShippedAttribute |
| NpgsqlEnumHelper/NpgsqlEnumHelper.cs:54 | The generated `MapPostgresEnums` is declared to return `INpgsqlTypeMapper`, but the template writes no `return` into its body. | any descriptor list: the mapper body holds only `mapper.MapEnum` statements, so the generated file cannot compile (CS0161) | end the body with `return mapper;`, so the mapper is handed back for chaining | not executed | PostgresEnumSourceGenerator.NoReturnStatement | PostgresEnumSourceGenerator.CorrectedMapperReturnsOnce |
| NpgsqlEnumHelper/Helpers.cs:44 | Each step of the second loop prefixes the name of the namespace it is leaving (`namespaceParent.Name`) before moving to the parent, so the inner name is repeated and the outermost name is lost | a node inside `namespace Outer { namespace Inner { ... } }`: the result is "Inner.Inner" | prefix the enclosing namespace's name (`parent.Name`), as the comment on line 43 says, giving "Outer.Inner" | not executed | Helpers.NestedNamespaceCounterexample | Helpers.GetNamespaceCorrected |
