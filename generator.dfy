/**
 * NpgsqlEnumHelper.cs: the source generator. It filters enum declarations, extracts one
 * descriptor (name and optional alias) per resolvable candidate, and renders one C# file
 * that registers every descriptor with Npgsql's type mapper and with EF Core's model builder.
 */
module PostgresEnumSourceGenerator {
  import opened Wrappers
  import opened Roslyn
  import opened Text
  import Helpers

  /** What the generation phase needs to know about one enum. */
  datatype EnumToGenerate = EnumToGenerate(enumName: string, alias: Option<string>)

  /** The hint name of the one generated file. */
  const HintName: string := "NpgsqlEnumHelper.g.cs"

  /** The name of the marker attribute's one property. */
  const AliasPropertyName: string := "Alias"

  /** The name the marker lookup passes, `nameof(NpgsqlEnumAttribute)`: the class's simple name, without its namespace. */
  const MarkerLookupName: string := "NpgsqlEnumAttribute"

  /** The marker attribute class's full metadata name: it is declared in namespace NpgsqlEnumHelper.Attributes. */
  const QualifiedMarkerName: string := "NpgsqlEnumHelper.Attributes.NpgsqlEnumAttribute"

  /** The marker type as the generator looks it up, None when the lookup fails. */
  function MarkerType(compilation: Compilation): Option<TypeId>
  {
    compilation.GetTypeByMetadataName(MarkerLookupName)
  }

  // ---------------------------------------------------------------------------
  // Syntax filter
  // ---------------------------------------------------------------------------

  /**
   * The cheap pre-filter: only enum declarations pass; one without attribute lists never does, and
   * one carrying any attribute always does.
   */
  function IsSyntaxTargetForGeneration(node: NodeKind): (r: bool)
    ensures r ==> node.EnumDeclaration?
    ensures node.EnumDeclaration? && node.decl.attributeLists == [] ==> !r
    ensures node.EnumDeclaration? && Helpers.Flatten(node.decl.attributeLists) != [] ==> r
  {
    node.EnumDeclaration? && |node.decl.attributeLists| > 0
  }

  /** The cheap syntactic filter never drops a declaration the semantic filter would keep. */
  lemma SemanticTargetsPassSyntaxFilter(decl: EnumDeclarationSyntax)
    requires Helpers.HasMarkerAttribute(decl)
    ensures IsSyntaxTargetForGeneration(EnumDeclaration(decl))
  {
  }

  // ---------------------------------------------------------------------------
  // Deduplication of candidates (Enumerable.Distinct)
  // ---------------------------------------------------------------------------

  function Elements(enums: seq<EnumDeclarationSyntax>): set<EnumDeclarationSyntax>
  {
    set c | c in enums
  }

  /** The candidates not yet seen, each kept at its first occurrence. */
  function DistinctFrom(enums: seq<EnumDeclarationSyntax>, seen: set<EnumDeclarationSyntax>): (r: seq<EnumDeclarationSyntax>)
    ensures forall c :: c in r <==> c in enums && c !in seen
    ensures forall i, j :: 0 <= i < j < |r| ==> r[i] != r[j]
  {
    if enums == [] then []
    else if enums[0] in seen then DistinctFrom(enums[1..], seen)
    else [enums[0]] + DistinctFrom(enums[1..], seen + {enums[0]})
  }

  /** Every candidate once, in order of first occurrence. */
  function Distinct(enums: seq<EnumDeclarationSyntax>): (r: seq<EnumDeclarationSyntax>)
    ensures forall c :: c in r <==> c in enums
    ensures forall i, j :: 0 <= i < j < |r| ==> r[i] != r[j]
  {
    DistinctFrom(enums, {})
  }

  lemma {:induction false} DistinctFromAppend(a: seq<EnumDeclarationSyntax>, b: seq<EnumDeclarationSyntax>, seen: set<EnumDeclarationSyntax>)
    ensures DistinctFrom(a + b, seen) == DistinctFrom(a, seen) + DistinctFrom(b, seen + Elements(a))
  {
    if a == [] {
      assert a + b == b;
      assert seen + Elements(a) == seen;
    } else {
      assert (a + b)[0] == a[0];
      assert (a + b)[1..] == a[1..] + b;
      assert Elements(a) == {a[0]} + Elements(a[1..]);
      if a[0] in seen {
        DistinctFromAppend(a[1..], b, seen);
        assert seen + Elements(a[1..]) == seen + Elements(a);
      } else {
        DistinctFromAppend(a[1..], b, seen + {a[0]});
        assert seen + {a[0]} + Elements(a[1..]) == seen + Elements(a);
      }
    }
  }

  /** Re-discovering candidates already seen adds nothing: each survives once, at its first discovery. */
  lemma RepeatedDiscoveryCollapses(enums: seq<EnumDeclarationSyntax>, again: seq<EnumDeclarationSyntax>)
    requires forall c :: c in again ==> c in enums
    ensures Distinct(enums + again) == Distinct(enums)
  {
    DistinctFromAppend(enums, again, {});
    DistinctFromCovered(again, {} + Elements(enums));
  }

  lemma {:induction false} DistinctFromCovered(enums: seq<EnumDeclarationSyntax>, seen: set<EnumDeclarationSyntax>)
    requires forall c :: c in enums ==> c in seen
    ensures DistinctFrom(enums, seen) == []
  {
    if enums != [] {
      DistinctFromCovered(enums[1..], seen);
    }
  }

  // ---------------------------------------------------------------------------
  // Descriptor extraction
  // ---------------------------------------------------------------------------

  /** The named arguments of the attributes whose class is the marker type, attribute by attribute. */
  function MarkerArguments(marker: TypeId, attributes: seq<AttributeData>): seq<NamedArgument>
  {
    if attributes == [] then []
    else (if attributes[0].attributeClass == Some(marker) then attributes[0].namedArguments else [])
         + MarkerArguments(marker, attributes[1..])
  }

  lemma {:induction false} MarkerArgumentsAppend(marker: TypeId, a: seq<AttributeData>, b: seq<AttributeData>)
    ensures MarkerArguments(marker, a + b) == MarkerArguments(marker, a) + MarkerArguments(marker, b)
  {
    if a == [] {
      assert a + b == b;
    } else {
      assert (a + b)[0] == a[0];
      assert (a + b)[1..] == a[1..] + b;
      MarkerArgumentsAppend(marker, a[1..], b);
    }
  }

  /** `Alias = v` with a value that is not null. */
  predicate IsAliasArgument(argument: NamedArgument)
  {
    argument.key == AliasPropertyName && argument.value.Some?
  }

  /** The position of the last alias argument among the first n pairs. */
  function LastAliasIndex(pairs: seq<NamedArgument>, n: nat): (k: Option<nat>)
    requires n <= |pairs|
    ensures k.None? <==> forall m :: 0 <= m < n ==> !IsAliasArgument(pairs[m])
    ensures k.Some? ==> k.value < n && IsAliasArgument(pairs[k.value])
    ensures k.Some? ==> forall m :: k.value < m < n ==> !IsAliasArgument(pairs[m])
  {
    if n == 0 then None
    else if IsAliasArgument(pairs[n - 1]) then Some(n - 1)
    else LastAliasIndex(pairs, n - 1)
  }

  /** The alias the first n pairs set: the value of the last alias argument among them. */
  function AliasAmong(pairs: seq<NamedArgument>, n: nat): Option<string>
    requires n <= |pairs|
  {
    match LastAliasIndex(pairs, n)
    case None => None
    case Some(k) => pairs[k].value
  }

  /** The alias all the pairs set. */
  function LastAlias(pairs: seq<NamedArgument>): Option<string>
  {
    AliasAmong(pairs, |pairs|)
  }

  /** The alias is the value of an alias argument followed by no other, and null when there is none. */
  lemma LastAliasCharacterized(pairs: seq<NamedArgument>, k: nat)
    ensures (forall m :: 0 <= m < |pairs| ==> !IsAliasArgument(pairs[m])) ==> LastAlias(pairs).None?
    ensures k < |pairs| && IsAliasArgument(pairs[k]) && (forall m :: k < m < |pairs| ==> !IsAliasArgument(pairs[m]))
        ==> LastAlias(pairs) == pairs[k].value
  {
    var r := LastAliasIndex(pairs, |pairs|);
    if k < |pairs| && IsAliasArgument(pairs[k]) && (forall m :: k < m < |pairs| ==> !IsAliasArgument(pairs[m])) {
      assert r.Some?;
      assert !(r.value < k) && !(r.value > k);
    }
  }

  /** Later arguments win: the alias of a concatenation comes from its second half when that sets one. */
  lemma LastAliasAppend(a: seq<NamedArgument>, b: seq<NamedArgument>)
    ensures LastAlias(a + b) == if LastAlias(b).Some? then LastAlias(b) else LastAlias(a)
  {
    var ab := a + b;
    var kb := LastAliasIndex(b, |b|);
    var ka := LastAliasIndex(a, |a|);
    if kb.Some? {
      forall m | |a| + kb.value < m < |ab|
        ensures !IsAliasArgument(ab[m])
      {
        assert ab[m] == b[m - |a|];
      }
      assert ab[|a| + kb.value] == b[kb.value];
      LastAliasCharacterized(ab, |a| + kb.value);
    } else if ka.Some? {
      forall m | ka.value < m < |ab|
        ensures !IsAliasArgument(ab[m])
      {
        if m < |a| {
          assert ab[m] == a[m];
        } else {
          assert ab[m] == b[m - |a|];
        }
      }
      assert ab[ka.value] == a[ka.value];
      LastAliasCharacterized(ab, ka.value);
    } else {
      forall m | 0 <= m < |ab|
        ensures !IsAliasArgument(ab[m])
      {
        if m < |a| {
          assert ab[m] == a[m];
        } else {
          assert ab[m] == b[m - |a|];
        }
      }
      LastAliasCharacterized(ab, 0);
    }
  }

  /** The alias of an enum symbol with the given attributes. */
  function AliasOf(marker: TypeId, attributes: seq<AttributeData>): Option<string>
  {
    LastAlias(MarkerArguments(marker, attributes))
  }

  /** An attribute of another class never affects the alias, wherever it sits. */
  lemma ForeignAttributeIgnored(marker: TypeId, before: seq<AttributeData>, a: AttributeData, after: seq<AttributeData>)
    requires a.attributeClass != Some(marker)
    ensures AliasOf(marker, before + [a] + after) == AliasOf(marker, before + after)
  {
    MarkerArgumentsAppend(marker, before + [a], after);
    MarkerArgumentsAppend(marker, before, [a]);
    MarkerArgumentsAppend(marker, before, after);
    assert [a][1..] == [];
    assert MarkerArguments(marker, [a]) == [];
    assert MarkerArguments(marker, before) + [] == MarkerArguments(marker, before);
  }

  /** An argument with another key, or with a null value, never affects the alias, wherever it sits. */
  lemma NonAliasArgumentIgnored(before: seq<NamedArgument>, argument: NamedArgument, after: seq<NamedArgument>)
    requires !IsAliasArgument(argument)
    ensures LastAlias(before + [argument] + after) == LastAlias(before + after)
  {
    LastAliasAppend(before + [argument], after);
    LastAliasAppend(before, [argument]);
    LastAliasAppend(before, after);
    LastAliasCharacterized([argument], 0);
  }

  /** A marker attribute placed last with a non-null Alias decides the alias. */
  lemma LastMarkerAliasWins(marker: TypeId, attributes: seq<AttributeData>, value: string)
    ensures AliasOf(marker, attributes + [AttributeData(Some(marker), [NamedArgument(AliasPropertyName, Some(value))])])
         == Some(value)
  {
    var last := AttributeData(Some(marker), [NamedArgument(AliasPropertyName, Some(value))]);
    MarkerArgumentsAppend(marker, attributes, [last]);
    assert [last][1..] == [];
    assert MarkerArguments(marker, [last]) == last.namedArguments;
    LastAliasCharacterized(last.namedArguments, 0);
    LastAliasAppend(MarkerArguments(marker, attributes), last.namedArguments);
  }

  /** The descriptor of a resolved enum symbol. */
  function Describe(marker: TypeId, symbol: NamedTypeSymbol): EnumToGenerate
  {
    EnumToGenerate(symbol.displayName, AliasOf(marker, symbol.attributes))
  }

  /** The candidates' declared named-type symbols, in candidate order, the unresolved ones dropped. */
  function ResolvedSymbols(enums: seq<EnumDeclarationSyntax>): (symbols: seq<NamedTypeSymbol>)
    ensures |symbols| <= |enums|
  {
    if enums == [] then []
    else
      ResolvedSymbols(enums[..|enums| - 1])
      + match enums[|enums| - 1].declaredSymbol case None => [] case Some(s) => [s]
  }

  /**
   * The resolved symbols are exactly the declared symbols of the candidates that resolve, and there is
   * none exactly when no candidate resolves.
   */
  lemma {:induction false} ResolvedSymbolsFromCandidates(enums: seq<EnumDeclarationSyntax>)
    ensures forall s :: s in ResolvedSymbols(enums) ==> exists c :: c in enums && c.declaredSymbol == Some(s)
    ensures forall c :: c in enums && c.declaredSymbol.Some? ==> c.declaredSymbol.value in ResolvedSymbols(enums)
    ensures ResolvedSymbols(enums) == [] <==> forall c :: c in enums ==> c.declaredSymbol.None?
  {
    if enums != [] {
      var init := enums[..|enums| - 1];
      ResolvedSymbolsFromCandidates(init);
      assert enums == init + [enums[|enums| - 1]];
      assert forall c :: c in enums <==> c in init || c == enums[|enums| - 1];
    }
  }

  /** What one candidate contributes: its descriptor when its symbol resolves, nothing otherwise. */
  function CandidateDescriptors(marker: TypeId, c: EnumDeclarationSyntax): (ds: seq<EnumToGenerate>)
    ensures |ds| <= 1
  {
    match c.declaredSymbol
    case None => []
    case Some(s) => [Describe(marker, s)]
  }

  /** The descriptors GetTypesToGenerate produces: one per resolved candidate, none without a marker type. */
  function Descriptors(marker: Option<TypeId>, enums: seq<EnumDeclarationSyntax>): (ds: seq<EnumToGenerate>)
    ensures marker.None? ==> ds == []
    ensures |ds| <= |enums|
  {
    if marker.None? || enums == [] then []
    else Descriptors(marker, enums[..|enums| - 1]) + CandidateDescriptors(marker.value, enums[|enums| - 1])
  }

  /** With a marker type, the k-th descriptor describes the k-th resolved symbol, and there is one per resolved symbol. */
  lemma {:induction false} DescriptorsDescribeResolved(marker: TypeId, enums: seq<EnumDeclarationSyntax>)
    ensures |Descriptors(Some(marker), enums)| == |ResolvedSymbols(enums)|
    ensures forall k :: 0 <= k < |ResolvedSymbols(enums)| ==>
      Descriptors(Some(marker), enums)[k] == Describe(marker, ResolvedSymbols(enums)[k])
  {
    if enums != [] {
      DescriptorsDescribeResolved(marker, enums[..|enums| - 1]);
    }
  }

  /** One more pass of the extraction loop appends what that candidate contributes. */
  lemma DescriptorsStep(marker: TypeId, enums: seq<EnumDeclarationSyntax>, i: nat)
    requires i < |enums|
    ensures Descriptors(Some(marker), enums[..i + 1]) ==
      Descriptors(Some(marker), enums[..i]) + CandidateDescriptors(marker, enums[i])
  {
    assert enums[..i + 1][..i] == enums[..i];
  }

  /** Collects a descriptor for every candidate whose declared symbol is a named type. */
  method GetTypesToGenerate(compilation: Compilation, enums: seq<EnumDeclarationSyntax>)
    returns (enumsToGenerate: seq<EnumToGenerate>)
    ensures enumsToGenerate == Descriptors(MarkerType(compilation), enums)
  {
    enumsToGenerate := [];
    var enumAttribute := compilation.GetTypeByMetadataName(MarkerLookupName);
    if enumAttribute.None? {
      return;
    }
    for i := 0 to |enums|
      invariant enumsToGenerate == Descriptors(enumAttribute, enums[..i])
    {
      var enumDeclarationSyntax := enums[i];
      DescriptorsStep(enumAttribute.value, enums, i);
      if enumDeclarationSyntax.declaredSymbol.None? {
        continue;
      }
      var enumSymbol := enumDeclarationSyntax.declaredSymbol.value;
      var enumName := enumSymbol.displayName;
      var alias: Option<string> := None;
      var pairs := MarkerArguments(enumAttribute.value, enumSymbol.attributes);
      for j := 0 to |pairs|
        invariant alias == AliasAmong(pairs, j)
      {
        var argument := pairs[j];
        if argument.key == AliasPropertyName && argument.value.Some? {
          alias := argument.value;
        }
      }
      enumsToGenerate := enumsToGenerate + [EnumToGenerate(enumName, alias)];
    }
    assert enums[..|enums|] == enums;
  }

  // ---------------------------------------------------------------------------
  // Rendering
  // ---------------------------------------------------------------------------

  // The skeleton's lines, exactly as the builder writes them. The longer literals are written as
  // concatenations of short pieces only because the verifier reasons about short literals far more
  // cheaply; the text is the same.
  const NullableDirective: string := "#nullable enable"
  const UsingNpgsql: string := "using Npgsql;"
  const UsingTypeMapping: string := "using Npgsql.TypeMapping;"
  const GeneratedNamespace: string := "namespace " + "PostgresEnumHelpers.Generated;"
  const ClassHead: string := "public " + "static class PostgresEnumExtensions"
  const OpenBrace: string := "{"
  const MapperSignature: string :=
    "\tpublic " + "static INpgsqlTypeMapper " + "MapPostgresEnums(" + "this INpgsqlTypeMapper mapper, "
    + "INpgsqlNameTranslator? " + "translator = null)"
  const RegisterSignature: string :=
    "\tpublic " + "static void " + "RegisterPostgresEnums(" + "this ModelBuilder builder, "
    + "string? schema = null, " + "INpgsqlNameTranslator? " + "translator = null)"
  const OpenBody: string := "\t{"
  const CloseBody: string := "\t}"
  const CloseBrace: string := "}"

  const MapPrefix: string := "\t\tmapper.MapEnum<"
  const RegisterPrefix: string := "\t\tbuilder.HasPostgresEnum<"
  const ReturnPrefix: string := "\t\treturn"

  /** The generated file up to the opening brace of the mapper method's body. */
  const Header: seq<string> :=
    [NullableDirective, UsingNpgsql, UsingTypeMapping, GeneratedNamespace, "", ClassHead, OpenBrace, MapperSignature, OpenBody]

  /** Between the two bodies: the mapper method's closing brace and the registering method's head. */
  const Middle: seq<string> := [CloseBody, RegisterSignature, OpenBody]

  const Footer: seq<string> := [CloseBody, CloseBrace]

  /** The statement registering one enum with the type mapper. */
  function MapLine(e: EnumToGenerate): string
  {
    MapPrefix + e.enumName + ">(translator);"
  }

  /** The PostgreSQL name passed for an enum: its alias verbatim, or the four characters null. */
  function PostgresName(e: EnumToGenerate): string
  {
    e.alias.GetOr("null")
  }

  /** The statement registering one enum with the model builder. */
  function RegisterLine(e: EnumToGenerate): string
  {
    RegisterPrefix + e.enumName + ">(schema, \"" + PostgresName(e) + "\", translator);"
  }

  /** One mapper statement per descriptor, as the first loop writes them. */
  function MapLines(es: seq<EnumToGenerate>): (lines: seq<string>)
    ensures |lines| == |es|
  {
    if es == [] then [] else MapLines(es[..|es| - 1]) + [MapLine(es[|es| - 1])]
  }

  /** One model-builder statement per descriptor, as the second loop writes them. */
  function RegisterLines(es: seq<EnumToGenerate>): (lines: seq<string>)
    ensures |lines| == |es|
  {
    if es == [] then [] else RegisterLines(es[..|es| - 1]) + [RegisterLine(es[|es| - 1])]
  }

  lemma {:induction false} StatementsAt(es: seq<EnumToGenerate>)
    ensures forall k :: 0 <= k < |es| ==> MapLines(es)[k] == MapLine(es[k]) && RegisterLines(es)[k] == RegisterLine(es[k])
  {
    if es != [] {
      var init := es[..|es| - 1];
      StatementsAt(init);
      assert forall k :: 0 <= k < |init| ==> init[k] == es[k];
    }
  }

  /**
   * The generated file as lines: a fixed skeleton with one mapper statement per descriptor,
   * then one model-builder statement per descriptor, each run in descriptor order.
   */
  function TemplateLines(es: seq<EnumToGenerate>): (lines: seq<string>)
    ensures |lines| == 2 * |es| + 14
  {
    Header + MapLines(es) + Middle + RegisterLines(es) + Footer
  }

  /** Where each line of the generated file sits. */
  lemma {:induction false} TemplateLayout(es: seq<EnumToGenerate>)
    ensures TemplateLines(es)[..9] == Header
    ensures forall k :: 0 <= k < |es| ==> TemplateLines(es)[9 + k] == MapLine(es[k])
    ensures TemplateLines(es)[9 + |es|..12 + |es|] == Middle
    ensures forall k :: 0 <= k < |es| ==> TemplateLines(es)[12 + |es| + k] == RegisterLine(es[k])
    ensures TemplateLines(es)[12 + 2 * |es|..] == Footer
  {
    StatementsAt(es);
  }

  /** The generated file's text: the lines joined by line terminators, none after the closing brace. */
  function ClassText(es: seq<EnumToGenerate>): string
  {
    JoinLines(TemplateLines(es))
  }

  /** Renders the generated file for the descriptors. */
  method GenerateClass(enumsToGenerate: seq<EnumToGenerate>) returns (result: string)
    ensures result == ClassText(enumsToGenerate)
  {
    var sb: string := "";
    sb := sb + NullableDirective + NewLine;
    sb := sb + UsingNpgsql + NewLine;
    sb := sb + UsingTypeMapping + NewLine;
    // The namespace literal carries its own "\n"; since the terminator is "\n" too, an empty line follows it.
    sb := sb + (GeneratedNamespace + "\n") + NewLine;
    sb := sb + ClassHead + NewLine;
    sb := sb + OpenBrace + NewLine;
    sb := sb + MapperSignature + NewLine;
    sb := sb + OpenBody + NewLine;
    HeaderLines(NullableDirective, UsingNpgsql, UsingTypeMapping, GeneratedNamespace, ClassHead, OpenBrace, MapperSignature, OpenBody);
    ghost var header := sb;
    for i := 0 to |enumsToGenerate|
      invariant sb == AppendLines(header, MapLines(enumsToGenerate[..i]))
    {
      var e := enumsToGenerate[i];
      sb := sb + MapLine(e) + NewLine;
      StatementStep(header, enumsToGenerate, i);
    }
    assert enumsToGenerate[..|enumsToGenerate|] == enumsToGenerate;
    sb := sb + CloseBody + NewLine;
    sb := sb + RegisterSignature + NewLine;
    sb := sb + OpenBody + NewLine;
    ghost var middle := sb;
    for i := 0 to |enumsToGenerate|
      invariant sb == AppendLines(middle, RegisterLines(enumsToGenerate[..i]))
    {
      var e := enumsToGenerate[i];
      sb := sb + RegisterLine(e) + NewLine;
      StatementStep(middle, enumsToGenerate, i);
    }
    sb := sb + CloseBody + NewLine;
    sb := sb + CloseBrace;
    JoinTemplate(Header, MapLines(enumsToGenerate), CloseBody, RegisterSignature, OpenBody,
      RegisterLines(enumsToGenerate), CloseBody, CloseBrace);
    result := sb;
  }

  /** One more pass of either statement loop appends that descriptor's statement. */
  lemma StatementStep(text: string, es: seq<EnumToGenerate>, i: nat)
    requires i < |es|
    ensures AppendLines(text, MapLines(es[..i + 1])) == AppendLines(text, MapLines(es[..i])) + MapLine(es[i]) + NewLine
    ensures AppendLines(text, RegisterLines(es[..i + 1])) == AppendLines(text, RegisterLines(es[..i])) + RegisterLine(es[i]) + NewLine
  {
    assert es[..i + 1][..i] == es[..i];
    AppendLinesSnoc(text, MapLines(es[..i]), MapLine(es[i]));
    AppendLinesSnoc(text, RegisterLines(es[..i]), RegisterLine(es[i]));
  }

  /** The header's AppendLine calls, the fourth of which writes a terminator of its own. */
  lemma HeaderLines(a: string, b: string, c: string, d: string, f: string, g: string, h: string, i: string)
    ensures AppendLines("", [a, b, c, d, "", f, g, h, i]) ==
      "" + a + NewLine + b + NewLine + c + NewLine + (d + "\n") + NewLine
      + f + NewLine + g + NewLine + h + NewLine + i + NewLine
  {
    AppendLinesSnoc("", [], a);
    assert [] + [a] == [a];
    AppendLinesSnoc("", [a], b);
    assert [a] + [b] == [a, b];
    AppendLinesSnoc("", [a, b], c);
    assert [a, b] + [c] == [a, b, c];
    AppendLinesSnoc("", [a, b, c], d);
    assert [a, b, c] + [d] == [a, b, c, d];
    AppendLinesSnoc("", [a, b, c, d], "");
    assert [a, b, c, d] + [""] == [a, b, c, d, ""];
    AppendLinesSnoc("", [a, b, c, d, ""], f);
    assert [a, b, c, d, ""] + [f] == [a, b, c, d, "", f];
    AppendLinesSnoc("", [a, b, c, d, "", f], g);
    assert [a, b, c, d, "", f] + [g] == [a, b, c, d, "", f, g];
    AppendLinesSnoc("", [a, b, c, d, "", f, g], h);
    assert [a, b, c, d, "", f, g] + [h] == [a, b, c, d, "", f, g, h];
    AppendLinesSnoc("", [a, b, c, d, "", f, g, h], i);
    assert [a, b, c, d, "", f, g, h] + [i] == [a, b, c, d, "", f, g, h, i];
    var written := "" + a + NewLine + b + NewLine + c + NewLine;
    assert written + d + NewLine + "" == written + (d + "\n");
  }

  /** The text of joined template lines, as the builder writes it piece by piece. */
  lemma JoinTemplate(header: seq<string>, maps: seq<string>, a: string, b: string, c: string,
                     registers: seq<string>, f1: string, f2: string)
    ensures JoinLines(header + maps + [a, b, c] + registers + [f1, f2]) ==
      AppendLines(AppendLines(AppendLines("", header), maps) + a + NewLine + b + NewLine + c + NewLine, registers)
      + f1 + NewLine + f2
  {
    var all := header + maps + [a, b, c] + registers + [f1, f2];
    var body := header + maps + [a, b, c] + registers + [f1];
    assert all[..|all| - 1] == body;
    AppendLinesTerminated(body);
    AppendLinesConcat("", header + maps + [a, b, c] + registers, [f1]);
    AppendLinesConcat("", header + maps + [a, b, c], registers);
    AppendLinesConcat("", header + maps, [a, b, c]);
    AppendLinesConcat("", header, maps);
    AppendLinesSnoc(AppendLines(AppendLines("", header), maps), [a, b], c);
    AppendLinesSnoc(AppendLines(AppendLines("", header), maps), [a], b);
    AppendLinesSnoc(AppendLines(AppendLines("", header), maps), [], a);
    assert [a] + [b] + [c] == [a, b, c];
    assert [f1][..0] == [];
    assert all[|all| - 1] == f2;
  }

  // ---------------------------------------------------------------------------
  // Properties of the rendering
  // ---------------------------------------------------------------------------

  /** With no descriptors, the file is the bare skeleton: both method bodies empty, no terminator after the last brace. */
  lemma EmptyRendering()
    ensures ClassText([]) ==
      "" + NullableDirective + NewLine + UsingNpgsql + NewLine + UsingTypeMapping + NewLine
      + (GeneratedNamespace + "\n") + NewLine + ClassHead + NewLine + OpenBrace + NewLine
      + MapperSignature + NewLine + OpenBody + NewLine
      + CloseBody + NewLine + RegisterSignature + NewLine + OpenBody + NewLine
      + CloseBody + NewLine + CloseBrace
  {
    HeaderLines(NullableDirective, UsingNpgsql, UsingTypeMapping, GeneratedNamespace, ClassHead, OpenBrace, MapperSignature, OpenBody);
    JoinTemplate(Header, [], CloseBody, RegisterSignature, OpenBody, [], CloseBody, CloseBrace);
  }

  /** Neither a mapper, nor a model-builder, nor a return statement. */
  predicate NotAStatement(line: string)
  {
    !StartsWith(line, MapPrefix) && !StartsWith(line, RegisterPrefix) && !StartsWith(line, ReturnPrefix)
  }

  /** All three statement prefixes open with two tabs; a line without them is no statement. */
  lemma NoDoubleTab(line: string, i: nat)
    requires i < 2 && i < |line| && line[i] != '\t'
    ensures NotAStatement(line)
  {
    PrefixMismatch(line, MapPrefix, i);
    PrefixMismatch(line, RegisterPrefix, i);
    PrefixMismatch(line, ReturnPrefix, i);
  }

  /**
   * Nine lines none of which is a statement form a run with no statement. A proof step only: stating it
   * over parameters keeps the header's literals out of the reasoning about its indices.
   */
  lemma NineWithoutStatement(a: string, b: string, c: string, d: string, e: string,
                             f: string, g: string, h: string, i: string)
    requires NotAStatement(a) && NotAStatement(b) && NotAStatement(c) && NotAStatement(d) && NotAStatement(e)
    requires NotAStatement(f) && NotAStatement(g) && NotAStatement(h) && NotAStatement(i)
    ensures forall k :: 0 <= k < 9 ==> NotAStatement([a, b, c, d, e, f, g, h, i][k])
  {
  }

  /** No line of the header is a statement. */
  lemma HeaderHasNoStatement()
    ensures forall k :: 0 <= k < |Header| ==> NotAStatement(Header[k])
  {
    NoDoubleTab(NullableDirective, 0);
    NoDoubleTab(UsingNpgsql, 0);
    NoDoubleTab(UsingTypeMapping, 0);
    NoDoubleTab(GeneratedNamespace, 0);
    assert NotAStatement("");
    NoDoubleTab(ClassHead, 0);
    NoDoubleTab(OpenBrace, 0);
    NoDoubleTab(MapperSignature, 1);
    NoDoubleTab(OpenBody, 1);
    NineWithoutStatement(NullableDirective, UsingNpgsql, UsingTypeMapping, GeneratedNamespace, "",
      ClassHead, OpenBrace, MapperSignature, OpenBody);
  }

  /** No line between the two statement runs, and no line after them, is a statement. */
  lemma MiddleAndFooterHaveNoStatement()
    ensures forall k :: 0 <= k < |Middle| ==> NotAStatement(Middle[k])
    ensures forall k :: 0 <= k < |Footer| ==> NotAStatement(Footer[k])
  {
    NoDoubleTab(CloseBody, 1);
    NoDoubleTab(RegisterSignature, 1);
    NoDoubleTab(OpenBody, 1);
    NoDoubleTab(CloseBrace, 0);
  }

  /** Every mapper statement starts with its prefix and is neither a model-builder nor a return statement. */
  lemma MapLineShape(e: EnumToGenerate)
    ensures StartsWith(MapLine(e), MapPrefix)
    ensures !StartsWith(MapLine(e), RegisterPrefix) && !StartsWith(MapLine(e), ReturnPrefix)
  {
    assert MapLine(e)[..|MapPrefix|] == MapPrefix;
    PrefixMismatch(MapLine(e), RegisterPrefix, 2);
    PrefixMismatch(MapLine(e), ReturnPrefix, 2);
  }

  /** Every model-builder statement starts with its prefix and is neither a mapper nor a return statement. */
  lemma RegisterLineShape(e: EnumToGenerate)
    ensures StartsWith(RegisterLine(e), RegisterPrefix)
    ensures !StartsWith(RegisterLine(e), MapPrefix) && !StartsWith(RegisterLine(e), ReturnPrefix)
  {
    assert RegisterLine(e)[..|RegisterPrefix|] == RegisterPrefix;
    PrefixMismatch(RegisterLine(e), MapPrefix, 2);
    PrefixMismatch(RegisterLine(e), ReturnPrefix, 2);
  }

  /** Selecting from a template whose fixed parts hold no line with the prefix keeps only its two runs. */
  lemma SelectFromTemplate(header: seq<string>, maps: seq<string>, middle: seq<string>, registers: seq<string>,
                           footer: seq<string>, prefix: string)
    requires forall k :: 0 <= k < |header| ==> !StartsWith(header[k], prefix)
    requires forall k :: 0 <= k < |middle| ==> !StartsWith(middle[k], prefix)
    requires forall k :: 0 <= k < |footer| ==> !StartsWith(footer[k], prefix)
    ensures LinesStartingWith(header + maps + middle + registers + footer, prefix) ==
      LinesStartingWith(maps, prefix) + LinesStartingWith(registers, prefix)
  {
    NoneStartingWith(header, prefix);
    NoneStartingWith(middle, prefix);
    NoneStartingWith(footer, prefix);
    LinesStartingWithAppend(header + maps + middle + registers, footer, prefix);
    LinesStartingWithAppend(header + maps + middle, registers, prefix);
    LinesStartingWithAppend(header + maps, middle, prefix);
    LinesStartingWithAppend(header, maps, prefix);
  }

  /** Each statement run holds only statements of its own kind. */
  lemma StatementShapes(es: seq<EnumToGenerate>)
    ensures forall k :: 0 <= k < |es| ==>
      StartsWith(MapLines(es)[k], MapPrefix) && !StartsWith(MapLines(es)[k], RegisterPrefix)
      && !StartsWith(MapLines(es)[k], ReturnPrefix)
    ensures forall k :: 0 <= k < |es| ==>
      StartsWith(RegisterLines(es)[k], RegisterPrefix) && !StartsWith(RegisterLines(es)[k], MapPrefix)
      && !StartsWith(RegisterLines(es)[k], ReturnPrefix)
  {
    StatementsAt(es);
    forall k | 0 <= k < |es|
      ensures StartsWith(MapLines(es)[k], MapPrefix) && !StartsWith(MapLines(es)[k], RegisterPrefix)
        && !StartsWith(MapLines(es)[k], ReturnPrefix)
      ensures StartsWith(RegisterLines(es)[k], RegisterPrefix) && !StartsWith(RegisterLines(es)[k], MapPrefix)
        && !StartsWith(RegisterLines(es)[k], ReturnPrefix)
    {
      MapLineShape(es[k]);
      RegisterLineShape(es[k]);
    }
  }

  /** The mapper statements of the generated file are exactly one per descriptor, in descriptor order. */
  lemma MapStatementsInOrder(es: seq<EnumToGenerate>)
    ensures LinesStartingWith(TemplateLines(es), MapPrefix) == MapLines(es)
  {
    StatementShapes(es);
    AllStartingWith(MapLines(es), MapPrefix);
    NoneStartingWith(RegisterLines(es), MapPrefix);
    HeaderHasNoStatement();
    MiddleAndFooterHaveNoStatement();
    SelectFromTemplate(Header, MapLines(es), Middle, RegisterLines(es), Footer, MapPrefix);
  }

  /** The model-builder statements of the generated file are exactly one per descriptor, in descriptor order. */
  lemma RegisterStatementsInOrder(es: seq<EnumToGenerate>)
    ensures LinesStartingWith(TemplateLines(es), RegisterPrefix) == RegisterLines(es)
  {
    StatementShapes(es);
    AllStartingWith(RegisterLines(es), RegisterPrefix);
    NoneStartingWith(MapLines(es), RegisterPrefix);
    HeaderHasNoStatement();
    MiddleAndFooterHaveNoStatement();
    SelectFromTemplate(Header, MapLines(es), Middle, RegisterLines(es), Footer, RegisterPrefix);
  }

  /** Whatever the descriptors, the generated file has no return statement: the mapper method never returns its mapper. */
  lemma NoReturnStatement(es: seq<EnumToGenerate>)
    ensures LinesStartingWith(TemplateLines(es), ReturnPrefix) == []
  {
    StatementShapes(es);
    NoneStartingWith(MapLines(es), ReturnPrefix);
    NoneStartingWith(RegisterLines(es), ReturnPrefix);
    HeaderHasNoStatement();
    MiddleAndFooterHaveNoStatement();
    SelectFromTemplate(Header, MapLines(es), Middle, RegisterLines(es), Footer, ReturnPrefix);
  }

  /** The statement the mapper method's declared return type calls for: it hands the mapper back for chaining. */
  const ReturnMapper: string := "\t\treturn mapper;"

  /** The template with the mapper method's body closed by `return mapper;` after its statements. */
  function CorrectedTemplateLines(es: seq<EnumToGenerate>): (lines: seq<string>)
    ensures |lines| == 2 * |es| + 15
  {
    Header + (MapLines(es) + [ReturnMapper]) + Middle + RegisterLines(es) + Footer
  }

  /** The return statement starts with its prefix and is neither a mapper nor a model-builder statement. */
  lemma ReturnMapperShape()
    ensures StartsWith(ReturnMapper, ReturnPrefix)
    ensures !StartsWith(ReturnMapper, MapPrefix) && !StartsWith(ReturnMapper, RegisterPrefix)
  {
    assert ReturnMapper[..|ReturnPrefix|] == ReturnPrefix;
    PrefixMismatch(ReturnMapper, MapPrefix, 2);
    PrefixMismatch(ReturnMapper, RegisterPrefix, 2);
  }

  /** Selecting from lines with one more line appended selects that line too exactly when it has the prefix. */
  lemma SelectSnoc(lines: seq<string>, line: string, prefix: string)
    ensures LinesStartingWith(lines + [line], prefix) ==
      LinesStartingWith(lines, prefix) + (if StartsWith(line, prefix) then [line] else [])
  {
    LinesStartingWithAppend(lines, [line], prefix);
    assert [line][1..] == [];
  }

  /**
   * In the corrected template the mapper method returns exactly once, right after its statements
   * and before its closing brace.
   */
  lemma CorrectedMapperReturnsOnce(es: seq<EnumToGenerate>)
    ensures CorrectedTemplateLines(es)[9 + |es|] == ReturnMapper
    ensures CorrectedTemplateLines(es)[10 + |es|] == CloseBody
    ensures LinesStartingWith(CorrectedTemplateLines(es), ReturnPrefix) == [ReturnMapper]
  {
    StatementShapes(es);
    HeaderHasNoStatement();
    MiddleAndFooterHaveNoStatement();
    ReturnMapperShape();
    SelectSnoc(MapLines(es), ReturnMapper, ReturnPrefix);
    NoneStartingWith(MapLines(es), ReturnPrefix);
    NoneStartingWith(RegisterLines(es), ReturnPrefix);
    SelectFromTemplate(Header, MapLines(es) + [ReturnMapper], Middle, RegisterLines(es), Footer, ReturnPrefix);
  }

  /** The correction leaves the statements of both methods as they were: one per descriptor, in order. */
  lemma CorrectedStatementsUnchanged(es: seq<EnumToGenerate>)
    ensures LinesStartingWith(CorrectedTemplateLines(es), MapPrefix) == MapLines(es)
    ensures LinesStartingWith(CorrectedTemplateLines(es), RegisterPrefix) == RegisterLines(es)
  {
    StatementShapes(es);
    HeaderHasNoStatement();
    MiddleAndFooterHaveNoStatement();
    ReturnMapperShape();
    SelectSnoc(MapLines(es), ReturnMapper, MapPrefix);
    SelectSnoc(MapLines(es), ReturnMapper, RegisterPrefix);
    AllStartingWith(MapLines(es), MapPrefix);
    NoneStartingWith(RegisterLines(es), MapPrefix);
    NoneStartingWith(MapLines(es), RegisterPrefix);
    AllStartingWith(RegisterLines(es), RegisterPrefix);
    SelectFromTemplate(Header, MapLines(es) + [ReturnMapper], Middle, RegisterLines(es), Footer, MapPrefix);
    SelectFromTemplate(Header, MapLines(es) + [ReturnMapper], Middle, RegisterLines(es), Footer, RegisterPrefix);
  }

  /** An absent alias renders exactly like an alias spelled null: the model builder is told the name "null". */
  lemma AbsentAliasRendersAsNull(enumName: string)
    ensures RegisterLine(EnumToGenerate(enumName, None)) == RegisterLine(EnumToGenerate(enumName, Some("null")))
    ensures PostgresName(EnumToGenerate(enumName, None)) == "null"
  {
  }

  /** A present alias is written verbatim between the quotes, with no escaping. */
  lemma AliasWrittenVerbatim(enumName: string, alias: string)
    ensures RegisterLine(EnumToGenerate(enumName, Some(alias))) ==
      RegisterPrefix + enumName + ">(schema, \"" + alias + "\", translator);"
  {
  }

  // ---------------------------------------------------------------------------
  // Reading the generated text back as lines
  // ---------------------------------------------------------------------------

  // The skeleton's literals hold no line terminator; they are checked a few pieces at a time.

  lemma ShortLiteralsSingleLine()
    ensures '\n' !in NullableDirective && '\n' !in UsingNpgsql && '\n' !in UsingTypeMapping
    ensures '\n' !in OpenBrace && '\n' !in OpenBody && '\n' !in CloseBody && '\n' !in CloseBrace
  {
  }

  lemma DeclarationLiteralsSingleLine()
    ensures '\n' !in GeneratedNamespace && '\n' !in ClassHead
  {
  }

  lemma SignaturePiecesSingleLine()
    ensures '\n' !in "\tpublic " && '\n' !in "static INpgsqlTypeMapper " && '\n' !in "MapPostgresEnums("
    ensures '\n' !in "static void " && '\n' !in "RegisterPostgresEnums("
  {
  }

  lemma ParameterPiecesSingleLine()
    ensures '\n' !in "this INpgsqlTypeMapper mapper, " && '\n' !in "this ModelBuilder builder, "
  {
  }

  lemma OptionalPiecesSingleLine()
    ensures '\n' !in "string? schema = null, " && '\n' !in "INpgsqlNameTranslator? " && '\n' !in "translator = null)"
  {
  }

  /** No line of the fixed skeleton holds a line terminator. */
  lemma SkeletonSingleLine()
    ensures forall l :: l in Header ==> '\n' !in l
    ensures forall l :: l in Middle ==> '\n' !in l
    ensures forall l :: l in Footer ==> '\n' !in l
  {
    ShortLiteralsSingleLine();
    DeclarationLiteralsSingleLine();
    SignaturePiecesSingleLine();
    ParameterPiecesSingleLine();
    OptionalPiecesSingleLine();
  }

  /** An enum name and PostgreSQL name that hold no line terminator: the descriptor's statements stay one line each. */
  predicate SingleLineDescriptor(e: EnumToGenerate)
  {
    '\n' !in e.enumName && '\n' !in PostgresName(e)
  }

  lemma StatementPiecesSingleLine()
    ensures '\n' !in MapPrefix && '\n' !in ">(translator);" && '\n' !in "null"
    ensures '\n' !in RegisterPrefix && '\n' !in ">(schema, \"" && '\n' !in "\", translator);"
  {
  }

  /** The statements of single-line descriptors hold no line terminator. */
  lemma {:induction false} StatementsSingleLine(es: seq<EnumToGenerate>)
    requires forall e :: e in es ==> SingleLineDescriptor(e)
    ensures forall l :: l in MapLines(es) ==> '\n' !in l
    ensures forall l :: l in RegisterLines(es) ==> '\n' !in l
  {
    if es != [] {
      var init := es[..|es| - 1];
      var e := es[|es| - 1];
      assert forall d :: d in init ==> d in es;
      StatementsSingleLine(init);
      StatementPiecesSingleLine();
      assert SingleLineDescriptor(e);
    }
  }

  /**
   * Reading the generated text back, cutting it at every line terminator, gives exactly the template's
   * lines, provided no enum name or alias holds a line terminator (aliases are written unescaped).
   */
  lemma ClassTextReadsBack(es: seq<EnumToGenerate>)
    requires forall e :: e in es ==> SingleLineDescriptor(e)
    ensures SplitLines(ClassText(es)) == TemplateLines(es)
    ensures LinesStartingWith(SplitLines(ClassText(es)), MapPrefix) == MapLines(es)
    ensures LinesStartingWith(SplitLines(ClassText(es)), RegisterPrefix) == RegisterLines(es)
    ensures LinesStartingWith(SplitLines(ClassText(es)), ReturnPrefix) == []
  {
    SkeletonSingleLine();
    StatementsSingleLine(es);
    SplitJoin(TemplateLines(es));
    MapStatementsInOrder(es);
    RegisterStatementsInOrder(es);
    NoReturnStatement(es);
  }

  // ---------------------------------------------------------------------------
  // Execute
  // ---------------------------------------------------------------------------

  /** The sources one run adds for the marker type found: none without candidates or without descriptors, else the one generated file. */
  function GeneratedSourcesFor(marker: Option<TypeId>, enums: seq<EnumDeclarationSyntax>): (sources: seq<GeneratedSource>)
    ensures |sources| <= 1
    ensures sources != [] <==> enums != [] && Descriptors(marker, Distinct(enums)) != []
    ensures forall source :: source in sources ==> source.hintName == HintName
  {
    if |enums| == 0 then []
    else
      var enumsToGenerate := Descriptors(marker, Distinct(enums));
      if |enumsToGenerate| <= 0 then [] else [GeneratedSource(HintName, ClassText(enumsToGenerate))]
  }

  /** The sources one run adds, with the marker type looked up as the generator does. */
  function GeneratedSources(compilation: Compilation, enums: seq<EnumDeclarationSyntax>): seq<GeneratedSource>
  {
    GeneratedSourcesFor(MarkerType(compilation), enums)
  }

  /** Deduplicates the candidates, extracts their descriptors and, when there are any, adds the generated file. */
  method Execute(compilation: Compilation, enums: seq<EnumDeclarationSyntax>, context: SourceProductionContext)
    modifies context
    ensures context.sources == old(context.sources) + GeneratedSources(compilation, enums)
  {
    if |enums| == 0 {
      return;
    }
    var enumsToGenerate := GetTypesToGenerate(compilation, Distinct(enums));
    if |enumsToGenerate| <= 0 {
      return;
    }
    var result := GenerateClass(enumsToGenerate);
    context.AddSource(HintName, result);
  }

  /** Nothing is generated without candidates, without the marker type, or when no candidate resolves. */
  lemma NothingToGenerate(compilation: Compilation, enums: seq<EnumDeclarationSyntax>)
    requires enums == [] || MarkerType(compilation).None? || forall c :: c in enums ==> c.declaredSymbol.None?
    ensures GeneratedSources(compilation, enums) == []
  {
    if MarkerType(compilation).Some? && enums != [] {
      ResolvedSymbolsFromCandidates(Distinct(enums));
      DescriptorsDescribeResolved(MarkerType(compilation).value, Distinct(enums));
    }
  }

  /** With a marker type and one resolvable candidate, exactly the one file is generated. */
  lemma OneFileGeneratedFor(marker: TypeId, enums: seq<EnumDeclarationSyntax>, c: EnumDeclarationSyntax)
    requires c in enums && c.declaredSymbol.Some?
    ensures GeneratedSourcesFor(Some(marker), enums) ==
      [GeneratedSource(HintName, ClassText(Descriptors(Some(marker), Distinct(enums))))]
  {
    assert c in Distinct(enums);
    ResolvedSymbolsFromCandidates(Distinct(enums));
    DescriptorsDescribeResolved(marker, Distinct(enums));
  }

  /** When the marker lookup succeeds and one candidate resolves, exactly the one file is generated. */
  lemma OneFileGenerated(compilation: Compilation, enums: seq<EnumDeclarationSyntax>, c: EnumDeclarationSyntax)
    requires MarkerType(compilation).Some? && c in enums && c.declaredSymbol.Some?
    ensures GeneratedSources(compilation, enums) ==
      [GeneratedSource(HintName, ClassText(Descriptors(MarkerType(compilation), Distinct(enums))))]
  {
    OneFileGeneratedFor(MarkerType(compilation).value, enums, c);
  }

  /** A compilation that references the shipped attribute: its class is known by its namespace-qualified name. */
  function ShippedCompilation(marker: TypeId): Compilation
  {
    Compilation(map[QualifiedMarkerName := marker])
  }

  /**
   * As written, the lookup by simple name misses the shipped attribute class, which lives in a namespace,
   * so no file is generated whatever the candidates.
   */
  lemma ShippedAttributeNeverFound(marker: TypeId, enums: seq<EnumDeclarationSyntax>)
    ensures MarkerType(ShippedCompilation(marker)) == None
    ensures GeneratedSources(ShippedCompilation(marker), enums) == []
  {
    assert |MarkerLookupName| != |QualifiedMarkerName|;
    NothingToGenerate(ShippedCompilation(marker), enums);
  }

  /** The marker lookup by the class's full metadata name. */
  function CorrectedMarkerType(compilation: Compilation): Option<TypeId>
  {
    compilation.GetTypeByMetadataName(QualifiedMarkerName)
  }

  /**
   * Looked up by its full metadata name, the shipped attribute class is found, and one resolvable
   * candidate suffices for the file to be generated.
   */
  lemma QualifiedLookupFindsShippedAttribute(marker: TypeId, enums: seq<EnumDeclarationSyntax>, c: EnumDeclarationSyntax)
    requires c in enums && c.declaredSymbol.Some?
    ensures CorrectedMarkerType(ShippedCompilation(marker)) == Some(marker)
    ensures GeneratedSourcesFor(CorrectedMarkerType(ShippedCompilation(marker)), enums) ==
      [GeneratedSource(HintName, ClassText(Descriptors(Some(marker), Distinct(enums))))]
  {
    OneFileGeneratedFor(marker, enums, c);
  }

  /** Candidates discovered again change nothing in what is generated. */
  lemma RepeatedDiscoveryAddsNothing(compilation: Compilation, enums: seq<EnumDeclarationSyntax>, again: seq<EnumDeclarationSyntax>)
    requires forall c :: c in again ==> c in enums
    ensures GeneratedSources(compilation, enums + again) == GeneratedSources(compilation, enums)
  {
    RepeatedDiscoveryCollapses(enums, again);
  }

  /**
   * In the generated file, each distinct resolvable candidate has exactly one mapper statement, naming
   * its symbol, in order of first discovery.
   */
  lemma EachDiscoveredEnumMappedOnce(marker: TypeId, enums: seq<EnumDeclarationSyntax>)
    ensures var ds := Descriptors(Some(marker), Distinct(enums));
      var symbols := ResolvedSymbols(Distinct(enums));
      |LinesStartingWith(TemplateLines(ds), MapPrefix)| == |symbols| &&
      forall k :: 0 <= k < |symbols| ==>
        LinesStartingWith(TemplateLines(ds), MapPrefix)[k] == MapLine(EnumToGenerate(symbols[k].displayName, AliasOf(marker, symbols[k].attributes)))
  {
    var ds := Descriptors(Some(marker), Distinct(enums));
    DescriptorsDescribeResolved(marker, Distinct(enums));
    MapStatementsInOrder(ds);
    StatementsAt(ds);
  }
}
