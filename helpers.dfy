/**
 * Helpers.cs: the namespace a declaration sits in, and the semantic filter that keeps
 * enum declarations carrying the marker attribute.
 */
module Helpers {
  import opened Wrappers
  import opened Roslyn
  import opened Text

  /** The simple name the semantic filter looks for. */
  const AttributeName: string := "NpgsqlEnumAttribute"

  // ---------------------------------------------------------------------------
  // Namespace of a declaration
  // ---------------------------------------------------------------------------

  /** A block namespace or a file-scoped namespace. */
  predicate IsNamespaceKind(k: NodeKind)
  {
    k.NamespaceDeclaration? || k.FileScopedNamespaceDeclaration?
  }

  /** The position of the nearest namespace at or after position k in a chain of ancestor kinds (nearest first). */
  function FirstNamespaceFrom(chain: seq<NodeKind>, k: nat): (r: Option<nat>)
    requires k <= |chain|
    ensures r.None? <==> forall m :: k <= m < |chain| ==> !IsNamespaceKind(chain[m])
    ensures r.Some? ==> k <= r.value < |chain| && IsNamespaceKind(chain[r.value])
    ensures r.Some? ==> forall m :: k <= m < r.value ==> !IsNamespaceKind(chain[m])
    decreases |chain| - k
  {
    if k == |chain| then None
    else if IsNamespaceKind(chain[k]) then Some(k)
    else FirstNamespaceFrom(chain, k + 1)
  }

  /** The position of the nearest namespace ancestor. */
  function FirstNamespace(chain: seq<NodeKind>): Option<nat>
  {
    FirstNamespaceFrom(chain, 0)
  }

  /** How many block namespaces directly enclose the namespace at position i, one inside the next. */
  function NestingDepth(chain: seq<NodeKind>, i: nat): (d: nat)
    requires i < |chain|
    ensures i + d < |chain|
    ensures forall m :: i < m <= i + d ==> chain[m].NamespaceDeclaration?
    ensures i + d + 1 < |chain| ==> !chain[i + d + 1].NamespaceDeclaration?
    decreases |chain| - i
  {
    if i + 1 < |chain| && chain[i + 1].NamespaceDeclaration? then 1 + NestingDepth(chain, i + 1) else 0
  }

  /** Position i holds a namespace and positions i+1 .. j hold block namespaces enclosing it. */
  predicate NamespaceRun(chain: seq<NodeKind>, i: nat, j: nat)
  {
    i <= j < |chain| && IsNamespaceKind(chain[i]) &&
    forall m :: i < m <= j ==> chain[m].NamespaceDeclaration?
  }

  /**
   * The dotted parts GetNamespace builds when it has climbed from the namespace at i to the
   * one at j: the names at j-1, j-2, ..., i, and then the name at i once more.
   */
  function WrittenParts(chain: seq<NodeKind>, i: nat, j: nat): (parts: seq<string>)
    requires NamespaceRun(chain, i, j)
    ensures |parts| == j - i + 1
    decreases j
  {
    if j == i then [chain[i].name] else [chain[j - 1].name] + WrittenParts(chain, i, j - 1)
  }

  /** As written, the parts are the names at j-1 down to i, then the name at i a second time. */
  lemma {:induction false} WrittenPartsAt(chain: seq<NodeKind>, i: nat, j: nat)
    requires NamespaceRun(chain, i, j)
    ensures WrittenParts(chain, i, j)[j - i] == chain[i].name
    ensures forall m :: 0 <= m < j - i ==> WrittenParts(chain, i, j)[m] == chain[j - 1 - m].name
    decreases j
  {
    if j > i {
      WrittenPartsAt(chain, i, j - 1);
    }
  }

  /** The dotted parts of the namespace from the one at j (outermost) down to the one at i. */
  function IntendedParts(chain: seq<NodeKind>, i: nat, j: nat): (parts: seq<string>)
    requires NamespaceRun(chain, i, j)
    ensures |parts| == j - i + 1
    decreases j
  {
    if j == i then [chain[i].name] else [chain[j].name] + IntendedParts(chain, i, j - 1)
  }

  /** The intended parts list every name from the one at j (outermost) down to the one at i. */
  lemma {:induction false} IntendedPartsAt(chain: seq<NodeKind>, i: nat, j: nat)
    requires NamespaceRun(chain, i, j)
    ensures forall m :: 0 <= m <= j - i ==> IntendedParts(chain, i, j)[m] == chain[j - m].name
    decreases j
  {
    if j > i {
      IntendedPartsAt(chain, i, j - 1);
    }
  }

  /** What GetNamespace returns for a node whose ancestors have the given kinds. */
  function NamespaceOf(chain: seq<NodeKind>): string
  {
    match FirstNamespace(chain)
    case None => ""
    case Some(i) => DotJoin(WrittenParts(chain, i, i + NestingDepth(chain, i)))
  }

  /** The namespace the declaration is evidently meant to report: every enclosing name, outermost first. */
  function IntendedNamespaceOf(chain: seq<NodeKind>): string
  {
    match FirstNamespace(chain)
    case None => ""
    case Some(i) => DotJoin(IntendedParts(chain, i, i + NestingDepth(chain, i)))
  }

  /** A namespace at i with none before it is the nearest one. */
  lemma FirstNamespaceAt(chain: seq<NodeKind>, i: nat)
    requires i < |chain| && IsNamespaceKind(chain[i])
    requires forall m :: 0 <= m < i ==> !IsNamespaceKind(chain[m])
    ensures FirstNamespace(chain) == Some(i)
  {
  }

  /** A run of block namespaces from i+1 to j that is not continued at j+1 has depth j - i. */
  lemma NestingDepthAt(chain: seq<NodeKind>, i: nat, j: nat)
    requires NamespaceRun(chain, i, j)
    requires j + 1 < |chain| ==> !chain[j + 1].NamespaceDeclaration?
    ensures NestingDepth(chain, i) == j - i
  {
  }

  /** The results once the nearest namespace at i and the last enclosing block namespace at j are known. */
  lemma NamespaceAt(chain: seq<NodeKind>, i: nat, j: nat)
    requires NamespaceRun(chain, i, j)
    requires forall m :: 0 <= m < i ==> !IsNamespaceKind(chain[m])
    requires j + 1 < |chain| ==> !chain[j + 1].NamespaceDeclaration?
    ensures NamespaceOf(chain) == DotJoin(WrittenParts(chain, i, j))
    ensures IntendedNamespaceOf(chain) == DotJoin(IntendedParts(chain, i, j))
  {
    FirstNamespaceAt(chain, i);
    NestingDepthAt(chain, i, j);
  }

  /** One more enclosing block namespace: one more dotted part, as written and as intended. */
  lemma EnclosingStep(chain: seq<NodeKind>, i: nat, j: nat)
    requires NamespaceRun(chain, i, j) && j + 1 < |chain| && chain[j + 1].NamespaceDeclaration?
    ensures NamespaceRun(chain, i, j + 1)
    ensures WrittenParts(chain, i, j + 1) == [chain[j].name] + WrittenParts(chain, i, j)
    ensures IntendedParts(chain, i, j + 1) == [chain[j + 1].name] + IntendedParts(chain, i, j)
  {
  }

  /**
   * Determines the namespace a declaration is declared in, "" when there is none.
   * `ancestors` is the declaration's parent chain, nearest first: ancestors[0] is its parent and
   * the parent of ancestors[k] is ancestors[k + 1]; the last one has no parent.
   * A position equal to |ancestors| plays the part of a null node.
   */
  method GetNamespace(ancestors: seq<NodeKind>) returns (nameSpace: string)
    ensures nameSpace == NamespaceOf(ancestors)
  {
    nameSpace := "";
    var potentialNamespaceParent := 0;
    while potentialNamespaceParent < |ancestors| && !IsNamespaceKind(ancestors[potentialNamespaceParent])
      invariant 0 <= potentialNamespaceParent <= |ancestors|
      invariant forall m :: 0 <= m < potentialNamespaceParent ==> !IsNamespaceKind(ancestors[m])
    {
      potentialNamespaceParent := potentialNamespaceParent + 1;
    }
    if potentialNamespaceParent == |ancestors| {
      return;
    }
    var namespaceParent := potentialNamespaceParent;
    nameSpace := ancestors[namespaceParent].name;
    ghost var parts := [nameSpace];
    while true
      invariant NamespaceRun(ancestors, potentialNamespaceParent, namespaceParent)
      invariant parts == WrittenParts(ancestors, potentialNamespaceParent, namespaceParent)
      invariant nameSpace == DotJoin(parts)
      decreases |ancestors| - namespaceParent
    {
      var parent := namespaceParent + 1;
      if parent == |ancestors| || !ancestors[parent].NamespaceDeclaration? {
        break;
      }
      EnclosingStep(ancestors, potentialNamespaceParent, namespaceParent);
      DotJoinCons(ancestors[namespaceParent].name, parts);
      nameSpace := ancestors[namespaceParent].name + "." + nameSpace;
      parts := [ancestors[namespaceParent].name] + parts;
      namespaceParent := parent;
    }
    NamespaceAt(ancestors, potentialNamespaceParent, namespaceParent);
  }

  /** GetNamespace with the prefix taken from the enclosing namespace, as its comments describe. */
  method GetNamespaceCorrected(ancestors: seq<NodeKind>) returns (nameSpace: string)
    ensures nameSpace == IntendedNamespaceOf(ancestors)
  {
    nameSpace := "";
    var potentialNamespaceParent := 0;
    while potentialNamespaceParent < |ancestors| && !IsNamespaceKind(ancestors[potentialNamespaceParent])
      invariant 0 <= potentialNamespaceParent <= |ancestors|
      invariant forall m :: 0 <= m < potentialNamespaceParent ==> !IsNamespaceKind(ancestors[m])
    {
      potentialNamespaceParent := potentialNamespaceParent + 1;
    }
    if potentialNamespaceParent == |ancestors| {
      return;
    }
    var namespaceParent := potentialNamespaceParent;
    nameSpace := ancestors[namespaceParent].name;
    ghost var parts := [nameSpace];
    while true
      invariant NamespaceRun(ancestors, potentialNamespaceParent, namespaceParent)
      invariant parts == IntendedParts(ancestors, potentialNamespaceParent, namespaceParent)
      invariant nameSpace == DotJoin(parts)
      decreases |ancestors| - namespaceParent
    {
      var parent := namespaceParent + 1;
      if parent == |ancestors| || !ancestors[parent].NamespaceDeclaration? {
        break;
      }
      EnclosingStep(ancestors, potentialNamespaceParent, namespaceParent);
      DotJoinCons(ancestors[parent].name, parts);
      nameSpace := ancestors[parent].name + "." + nameSpace;
      parts := [ancestors[parent].name] + parts;
      namespaceParent := parent;
    }
    NamespaceAt(ancestors, potentialNamespaceParent, namespaceParent);
  }

  /** As written, the result is the intended namespace of all but the outermost block, followed by the innermost name again. */
  lemma {:induction false} WrittenRepeatsInnerDropsOuter(chain: seq<NodeKind>, i: nat, j: nat)
    requires NamespaceRun(chain, i, j) && i < j
    ensures WrittenParts(chain, i, j) == IntendedParts(chain, i, j - 1) + [chain[i].name]
  {
    WrittenPartsAt(chain, i, j);
    IntendedPartsAt(chain, i, j - 1);
    var w := WrittenParts(chain, i, j);
    var v := IntendedParts(chain, i, j - 1) + [chain[i].name];
    assert |w| == |v|;
    forall m | 0 <= m < |w| ensures w[m] == v[m] {
      if m < j - i {
        assert v[m] == IntendedParts(chain, i, j - 1)[m];
      }
    }
  }

  /** Without enclosing block namespaces, the result is the name of the nearest namespace, as intended. */
  lemma NoEnclosingNamespace(chain: seq<NodeKind>, i: nat)
    requires FirstNamespace(chain) == Some(i)
    requires i + 1 < |chain| ==> !chain[i + 1].NamespaceDeclaration?
    ensures NamespaceOf(chain) == chain[i].name
    ensures IntendedNamespaceOf(chain) == chain[i].name
  {
    assert NestingDepth(chain, i) == 0;
  }

  /** Each enclosing block namespace adds exactly one dotted part: nesting depth d gives d + 1 parts. */
  lemma PartsPerEnclosingNamespace(chain: seq<NodeKind>, i: nat)
    requires FirstNamespace(chain) == Some(i)
    ensures var j := i + NestingDepth(chain, i);
      && NamespaceOf(chain) == DotJoin(WrittenParts(chain, i, j))
      && |WrittenParts(chain, i, j)| == 1 + NestingDepth(chain, i)
      && IntendedNamespaceOf(chain) == DotJoin(IntendedParts(chain, i, j))
      && |IntendedParts(chain, i, j)| == 1 + NestingDepth(chain, i)
  {
    var j := i + NestingDepth(chain, i);
    assert NamespaceRun(chain, i, j);
  }

  lemma {:induction false} PartsShift(k: NodeKind, chain: seq<NodeKind>, i: nat, j: nat)
    requires NamespaceRun(chain, i, j)
    ensures NamespaceRun([k] + chain, i + 1, j + 1)
    ensures WrittenParts([k] + chain, i + 1, j + 1) == WrittenParts(chain, i, j)
    ensures IntendedParts([k] + chain, i + 1, j + 1) == IntendedParts(chain, i, j)
    decreases j
  {
    var c := [k] + chain;
    assert c[i + 1] == chain[i];
    assert c[j + 1] == chain[j];
    assert forall m :: i + 1 < m <= j + 1 ==> c[m] == chain[m - 1];
    if j > i {
      assert c[j] == chain[j - 1];
      PartsShift(k, chain, i, j - 1);
    }
  }

  /** The upward walk passes over ancestors that are not namespaces (an enclosing class, say). */
  lemma NonNamespaceAncestorSkipped(k: NodeKind, chain: seq<NodeKind>)
    requires !IsNamespaceKind(k)
    ensures NamespaceOf([k] + chain) == NamespaceOf(chain)
    ensures IntendedNamespaceOf([k] + chain) == IntendedNamespaceOf(chain)
  {
    var c := [k] + chain;
    match FirstNamespace(chain)
    case None =>
      forall m | 0 <= m < |c| ensures !IsNamespaceKind(c[m]) {
        if m > 0 { assert c[m] == chain[m - 1]; }
      }
      assert FirstNamespace(c).None?;
    case Some(i) =>
      var j := i + NestingDepth(chain, i);
      forall m | 0 <= m < i + 1 ensures !IsNamespaceKind(c[m]) {
        if m > 0 { assert c[m] == chain[m - 1]; }
      }
      assert j + 2 < |c| ==> c[j + 2] == chain[j + 1];
      PartsShift(k, chain, i, j);
      NamespaceAt(c, i + 1, j + 1);
      NamespaceAt(chain, i, j);
  }

  /** namespace Outer { namespace Inner { enum E } }: GetNamespace reports "Inner.Inner", not "Outer.Inner". */
  lemma NestedNamespaceCounterexample()
    ensures NamespaceOf([NamespaceDeclaration("Inner"), NamespaceDeclaration("Outer")]) == "Inner.Inner"
    ensures IntendedNamespaceOf([NamespaceDeclaration("Inner"), NamespaceDeclaration("Outer")]) == "Outer.Inner"
  {
    var chain := [NamespaceDeclaration("Inner"), NamespaceDeclaration("Outer")];
    assert FirstNamespace(chain) == Some(0);
    assert NestingDepth(chain, 0) == 1;
    assert WrittenParts(chain, 0, 1) == ["Inner", "Inner"];
    assert IntendedParts(chain, 0, 1) == ["Outer", "Inner"];
  }

  // ---------------------------------------------------------------------------
  // Semantic filter
  // ---------------------------------------------------------------------------

  /** All attributes of all attribute lists, in order. */
  function Flatten(lists: seq<seq<AttributeSyntax>>): (flat: seq<AttributeSyntax>)
    ensures forall a :: a in flat <==> exists l :: l in lists && a in l
  {
    if lists == [] then [] else lists[0] + Flatten(lists[1..])
  }

  /** The attribute binds to a constructor of a type whose simple name is the marker's. */
  predicate IsMarkerAttribute(a: AttributeSyntax)
  {
    a.symbol.Some? && a.symbol.value.MethodSymbol? && a.symbol.value.containingTypeName == AttributeName
  }

  predicate HasMarkerAttribute(decl: EnumDeclarationSyntax)
  {
    exists a :: a in Flatten(decl.attributeLists) && IsMarkerAttribute(a)
  }

  /** The declaration itself when one of its attributes is the marker, None (null) otherwise. */
  method GetSemanticTargetForGeneration(enumDeclarationSyntax: EnumDeclarationSyntax)
    returns (target: Option<EnumDeclarationSyntax>)
    ensures target.Some? <==> HasMarkerAttribute(enumDeclarationSyntax)
    ensures target.Some? ==> target.value == enumDeclarationSyntax
  {
    var attributes := Flatten(enumDeclarationSyntax.attributeLists);
    for i := 0 to |attributes|
      invariant forall k :: 0 <= k < i ==> !IsMarkerAttribute(attributes[k])
    {
      var attributeSyntax := attributes[i];
      if attributeSyntax.symbol.None? || !attributeSyntax.symbol.value.MethodSymbol? {
        continue;
      }
      if attributeSyntax.symbol.value.containingTypeName == AttributeName {
        assert attributeSyntax in attributes && IsMarkerAttribute(attributeSyntax);
        return Some(enumDeclarationSyntax);
      }
    }
    return None;
  }

  /** An attribute that binds to no method symbol never makes a declaration a target, wherever in a list it is added. */
  lemma UnresolvedAttributeIgnored(node: NodeId, before: seq<seq<AttributeSyntax>>, after: seq<seq<AttributeSyntax>>,
                                   front: seq<AttributeSyntax>, back: seq<AttributeSyntax>, a: AttributeSyntax,
                                   declared: Option<NamedTypeSymbol>)
    requires a.symbol.None? || !a.symbol.value.MethodSymbol?
    ensures HasMarkerAttribute(EnumDeclarationSyntax(node, before + [front + [a] + back] + after, declared))
        <==> HasMarkerAttribute(EnumDeclarationSyntax(node, before + [front + back] + after, declared))
  {
    var with := before + [front + [a] + back] + after;
    var without := before + [front + back] + after;
    forall b | IsMarkerAttribute(b)
      ensures b in Flatten(with) <==> b in Flatten(without)
    {
      if b in Flatten(with) {
        var l :| l in with && b in l;
        if l == front + [a] + back {
          assert b in front + back;
          assert front + back in without;
        } else {
          assert l in without;
        }
      }
      if b in Flatten(without) {
        var l :| l in without && b in l;
        if l == front + back {
          assert b in front + [a] + back;
          assert front + [a] + back in with;
        } else {
          assert l in with;
        }
      }
    }
  }

  /** An attribute list holding only attributes that bind to no method symbol never makes a declaration a target, wherever it is added. */
  lemma UnresolvedAttributeListIgnored(node: NodeId, before: seq<seq<AttributeSyntax>>, after: seq<seq<AttributeSyntax>>,
                                       list: seq<AttributeSyntax>, declared: Option<NamedTypeSymbol>)
    requires forall a :: a in list ==> a.symbol.None? || !a.symbol.value.MethodSymbol?
    ensures HasMarkerAttribute(EnumDeclarationSyntax(node, before + [list] + after, declared))
        <==> HasMarkerAttribute(EnumDeclarationSyntax(node, before + after, declared))
  {
    var with := before + [list] + after;
    var without := before + after;
    forall b | IsMarkerAttribute(b)
      ensures b in Flatten(with) <==> b in Flatten(without)
    {
      if b in Flatten(with) {
        var l :| l in with && b in l;
        if l == list {
          assert false;
        } else {
          assert l in without;
        }
      }
      if b in Flatten(without) {
        var l :| l in without && b in l;
        assert l in with;
      }
    }
  }
}
