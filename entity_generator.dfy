/**
 * `GenerateEntityClass`: one entity class per table, as a sequence of lines
 * (one element per `AppendLine`).
 */
module EntityGenerator {
  import opened Strings
  import opened Schema
  import opened Naming
  import opened Relationships

  /** A data annotation the generator may place above a property. */
  datatype Annotation =
    | Key
    | MaxLength(length: int)
    | Required
    | EmailAddress
    | Phone
    | Url
    | RegularExpression(pattern: string)
    | Column(typeName: string)
    | Timestamp
    | ConcurrencyCheck

  /** `[Required]` is emitted for a non-nullable, non-key property whose token is exactly "string". */
  predicate NeedsRequired(p: Property) {
    !p.isNullable && !p.isPrimaryKey && p.dataType == "string"
  }

  /** Whether the property's flags call for annotation `a`. */
  predicate Applies(p: Property, a: Annotation) {
    match a
    case Key => p.isPrimaryKey
    case MaxLength(n) => p.maxLength == Some(n)
    case Required => NeedsRequired(p)
    case EmailAddress => p.isEmailAddress
    case Phone => p.isPhoneNumber
    case Url => p.isUrl
    case RegularExpression(x) => !IsNullOrEmpty(p.regexPattern) && x == p.regexPattern.value
    case Column(x) => !IsNullOrEmpty(p.columnTypeName) && x == p.columnTypeName.value
    case Timestamp => p.isTimestamp
    case ConcurrencyCheck => p.isConcurrencyToken
  }

  /** Every annotation the generator knows, in the order it writes them. */
  function Candidates(p: Property): seq<Annotation> {
    [ Key,
      MaxLength(if p.maxLength.Some? then p.maxLength.value else 0),
      Required, EmailAddress, Phone, Url,
      RegularExpression(if p.regexPattern.Some? then p.regexPattern.value else ""),
      Column(if p.columnTypeName.Some? then p.columnTypeName.value else ""),
      Timestamp, ConcurrencyCheck ]
  }

  /** The candidates that apply, in order. */
  function Select(p: Property, candidates: seq<Annotation>): (r: seq<Annotation>)
    ensures forall a :: a in r <==> a in candidates && Applies(p, a)
    ensures |r| <= |candidates|
  {
    if candidates == [] then []
    else
      var a := candidates[|candidates| - 1];
      assert candidates == candidates[..|candidates| - 1] + [a];
      Select(p, candidates[..|candidates| - 1]) + (if Applies(p, a) then [a] else [])
  }

  /** The annotations of a property: those its flags call for, in the order the source writes them. */
  function Annotations(p: Property): (r: seq<Annotation>)
    ensures forall a :: a in r <==> Applies(p, a)
    ensures |r| <= 10
  {
    assert forall a :: Applies(p, a) ==> a in Candidates(p);
    Select(p, Candidates(p))
  }

  /** The line an annotation is written as: eight spaces, the bracket and the annotation's body. */
  function AnnotationText(a: Annotation): (r: string)
    ensures StartsWith(r, "        [")
  {
    "        [" + AnnotationBody(a)
  }

  /** What follows the opening bracket of an annotation line. */
  function AnnotationBody(a: Annotation): string {
    match a
    case Key => "Key]"
    case MaxLength(n) => "MaxLength(" + IntToString(n) + ")]"
    case Required => "Required]"
    case EmailAddress => "EmailAddress]"
    case Phone => "Phone]"
    case Url => "Url]"
    case RegularExpression(pattern) => "RegularExpression(\"" + pattern + "\")]"
    case Column(typeName) => "Column(TypeName = \"" + typeName + "\")]"
    case Timestamp => "Timestamp]"
    case ConcurrencyCheck => "ConcurrencyCheck]"
  }

  /** The first three letters of an annotation's name, which tell the annotations apart. */
  function AnnotationTag(a: Annotation): string {
    match a
    case Key => "Key"
    case MaxLength(_) => "Max"
    case Required => "Req"
    case EmailAddress => "Ema"
    case Phone => "Pho"
    case Url => "Url"
    case RegularExpression(_) => "Reg"
    case Column(_) => "Col"
    case Timestamp => "Tim"
    case ConcurrencyCheck => "Con"
  }

  lemma AnnotationBodyTag(a: Annotation)
    ensures |AnnotationBody(a)| >= 4 && AnnotationBody(a)[..3] == AnnotationTag(a)
  {
  }

  /** No two annotations are written the same way. */
  lemma {:induction false} AnnotationTextInjective(a: Annotation, b: Annotation)
    requires AnnotationText(a) == AnnotationText(b)
    ensures a == b
  {
    var r := AnnotationBody(a);
    assert r == AnnotationText(a)[9..] == AnnotationBody(b);
    AnnotationBodyTag(a);
    AnnotationBodyTag(b);
    match a {
      case MaxLength(n) =>
        assert b.MaxLength?;
        assert IntToString(n) == r[10..|r| - 2] == IntToString(b.length);
        IntToStringInjective(n, b.length);
      case RegularExpression(x) =>
        assert b.RegularExpression? && x == r[19..|r| - 3] == b.pattern;
      case Column(x) =>
        assert b.Column? && x == r[19..|r| - 3] == b.typeName;
      case _ =>
    }
  }

  /** The annotation lines above a property. */
  function AnnotationLines(p: Property): (r: seq<string>)
    ensures |r| == |Annotations(p)|
    ensures forall i :: 0 <= i < |r| ==> r[i] == AnnotationText(Annotations(p)[i])
  {
    var annotations := Annotations(p);
    seq(|annotations|, i requires 0 <= i < |annotations| => AnnotationText(annotations[i]))
  }

  /** `public <type> <name> { get; set; }`: a scalar member. */
  function ScalarLine(typeName: string, memberName: string): string {
    "        public " + typeName + " " + memberName + " { get; set; }"
  }

  /** The scalar member a property becomes. */
  function ScalarMember(titleCase: CaseMapping, p: Property): string {
    ScalarLine(GetCSharpDataType(p.dataType, p.isNullable), ToPascalCase(titleCase, p.name))
  }

  /** The property is named after its principal followed by "Id", so EF Core finds the key without `[ForeignKey]`. */
  predicate FollowsKeyConvention(titleCase: CaseMapping, p: Property)
    requires HasNavigation(p)
  {
    ToPascalCase(titleCase, p.name) == ToPascalCase(titleCase, p.referencedTable.value) + "Id"
  }

  function ForeignKeyAttribute(memberName: string): string {
    "        [ForeignKey(\"" + memberName + "\")]"
  }

  /** `public virtual <Principal>[?] <Navigation> { get; set; }`. */
  function NavigationLine(principal: string, isNullable: bool, navigationName: string): string {
    "        public virtual " + principal + (if isNullable then "?" else "") + " " + navigationName + " { get; set; }"
  }

  /** The navigation member of a foreign key, as the property describes it. */
  function NavigationMember(titleCase: CaseMapping, p: Property): string
    requires HasNavigation(p)
  {
    NavigationLine(ToPascalCase(titleCase, p.referencedTable.value), p.isNullable, ToPascalCase(titleCase, p.navigationName.value))
  }

  /** The navigation member after a foreign key, preceded by `[ForeignKey]` unless the name follows the convention. */
  function NavigationLines(titleCase: CaseMapping, p: Property): (r: seq<string>)
    ensures r == [] <==> !HasNavigation(p)
    ensures HasNavigation(p) ==> r[|r| - 1] == NavigationMember(titleCase, p)
    ensures HasNavigation(p) ==>
      (|r| == 1 <==> FollowsKeyConvention(titleCase, p))
    ensures HasNavigation(p) && |r| == 2 ==> r[0] == ForeignKeyAttribute(ToPascalCase(titleCase, p.name))
    ensures |r| <= 2
  {
    if HasNavigation(p) then
      (if !FollowsKeyConvention(titleCase, p) then [ForeignKeyAttribute(ToPascalCase(titleCase, p.name))] else [])
      + [NavigationMember(titleCase, p)]
    else []
  }

  /** Everything one property contributes: attributes, the scalar member, the navigation. */
  function PropertyBlock(titleCase: CaseMapping, p: Property): seq<string> {
    AnnotationLines(p) + [ScalarMember(titleCase, p)] + NavigationLines(titleCase, p)
  }

  /** The blocks of all properties, in declared order. */
  function PropertyBlocks(titleCase: CaseMapping, props: seq<Property>): seq<string>
    decreases |props|
  {
    if props == [] then []
    else PropertyBlocks(titleCase, props[..|props| - 1]) + PropertyBlock(titleCase, props[|props| - 1])
  }

  /** The name of the collection an inverse navigation would receive. */
  function CollectionName(titleCase: CaseMapping, e: InverseNavigation): string {
    Pluralize(ToPascalCase(titleCase, e.referencingTable))
  }

  /** Some property of the table already uses `name`, as its own or as its navigation's PascalCase name. */
  predicate CollidesWithMember(titleCase: CaseMapping, props: seq<Property>, name: string) {
    exists p :: p in props
      && (ToPascalCase(titleCase, p.name) == name || ToPascalCaseOrNull(titleCase, p.navigationName) == Some(name))
  }

  /** The inverse navigations that receive a collection: those whose name collides with no property. */
  function EmittedInverses(titleCase: CaseMapping, props: seq<Property>, entries: seq<InverseNavigation>): (r: seq<InverseNavigation>)
    ensures forall e :: e in r <==> e in entries && !CollidesWithMember(titleCase, props, CollectionName(titleCase, e))
    decreases |entries|
  {
    if entries == [] then []
    else
      var e := entries[|entries| - 1];
      assert entries == entries[..|entries| - 1] + [e];
      EmittedInverses(titleCase, props, entries[..|entries| - 1])
        + (if CollidesWithMember(titleCase, props, CollectionName(titleCase, e)) then [] else [e])
  }

  /** `public virtual ICollection<D> <Collection> { get; set; } = new List<D>();`. */
  function CollectionLine(dependent: string, collection: string): string {
    "        public virtual ICollection<" + dependent + "> " + collection
      + " { get; set; } = new List<" + dependent + ">();"
  }

  /** The collection member an inverse navigation becomes. */
  function CollectionMember(titleCase: CaseMapping, e: InverseNavigation): string {
    CollectionLine(ToPascalCase(titleCase, e.referencingTable), CollectionName(titleCase, e))
  }

  /**
   * The collection members: a blank line and a collection per emitted inverse
   * navigation, in map order; a colliding one is skipped without a trace.
   */
  function InverseCollectionLines(titleCase: CaseMapping, props: seq<Property>, entries: seq<InverseNavigation>): (r: seq<string>)
    ensures |r| == 2 * |EmittedInverses(titleCase, props, entries)|
    ensures forall k :: 0 <= k < |EmittedInverses(titleCase, props, entries)| ==>
      r[2 * k] == "" && r[2 * k + 1] == CollectionMember(titleCase, EmittedInverses(titleCase, props, entries)[k])
    decreases |entries|
  {
    if entries == [] then []
    else
      var e := entries[|entries| - 1];
      var collides := CollidesWithMember(titleCase, props, CollectionName(titleCase, e));
      var earlier := EmittedInverses(titleCase, props, entries[..|entries| - 1]);
      assert EmittedInverses(titleCase, props, entries) == earlier + (if collides then [] else [e]);
      InverseCollectionLines(titleCase, props, entries[..|entries| - 1])
        + (if collides then [] else ["", CollectionMember(titleCase, e)])
  }

  function EntityHeader(rootNamespace: string, entityName: string): seq<string> {
    [ "namespace " + rootNamespace + ".Entities",
      "{",
      "    using System;",
      "    using System.Collections.Generic;",
      "    using System.ComponentModel.DataAnnotations;",
      "    using System.ComponentModel.DataAnnotations.Schema;",
      "",
      "    public class " + entityName,
      "    {" ]
  }

  const EntityFooter: seq<string> := ["    }", "}"]

  /**
   * `GenerateEntityClass`. The inverse navigations are looked up under the
   * table's raw name.
   */
  function GenerateEntityClass(titleCase: CaseMapping, table: Table, rootNamespace: string, inverse: InverseMap): seq<string> {
    EntityHeader(rootNamespace, ToPascalCase(titleCase, table.name))
      + PropertyBlocks(titleCase, table.properties)
      + (if table.name in inverse then InverseCollectionLines(titleCase, table.properties, inverse[table.name]) else [])
      + EntityFooter
  }

  // ---------------------------------------------------------------------------
  // Properties of the generated class.

  /** A line declaring a scalar member: `public <type> <name>`, not a `public virtual` navigation. */
  predicate IsScalarDeclaration(line: string) {
    StartsWith(line, "        public ") && !StartsWith(line, "        public virtual ")
  }

  /** The scalar declarations among `lines`, in order. */
  function ScalarDeclarations(lines: seq<string>): seq<string>
    decreases |lines|
  {
    if lines == [] then []
    else
      ScalarDeclarations(lines[..|lines| - 1])
        + (if IsScalarDeclaration(lines[|lines| - 1]) then [lines[|lines| - 1]] else [])
  }

  lemma {:induction false} ScalarDeclarationsAppend(a: seq<string>, b: seq<string>)
    ensures ScalarDeclarations(a + b) == ScalarDeclarations(a) + ScalarDeclarations(b)
    decreases |b|
  {
    if b == [] {
      assert a + b == a;
    } else {
      assert (a + b)[..|a + b| - 1] == a + b[..|b| - 1];
      ScalarDeclarationsAppend(a, b[..|b| - 1]);
    }
  }

  lemma {:induction false} NoScalarDeclarations(lines: seq<string>)
    requires forall l :: l in lines ==> !IsScalarDeclaration(l)
    ensures ScalarDeclarations(lines) == []
    decreases |lines|
  {
    if lines != [] {
      NoScalarDeclarations(lines[..|lines| - 1]);
    }
  }

  /** A line that differs from "        public " somewhere in its first fifteen characters is no scalar declaration. */
  lemma {:induction false} NotScalarAt(line: string, i: nat)
    requires i < 15 && i < |line| && line[i] != "        public "[i]
    ensures !IsScalarDeclaration(line)
  {
  }

  lemma {:induction false} ScalarLineShape(typeName: string, memberName: string)
    requires |typeName| > 0 && typeName[0] != 'v'
    ensures IsScalarDeclaration(ScalarLine(typeName, memberName))
    ensures ScalarLine(typeName, memberName)[8] == 'p'
  {
    var line := ScalarLine(typeName, memberName);
    var rest := typeName + " " + memberName + " { get; set; }";
    assert line == "        public " + rest;
    assert line[15] == rest[0] == typeName[0];
    assert "        public virtual "[15] == 'v';
  }

  lemma ScalarMemberShape(titleCase: CaseMapping, p: Property)
    ensures IsScalarDeclaration(ScalarMember(titleCase, p))
    ensures ScalarMember(titleCase, p)[8] == 'p'
  {
    GetCSharpDataTypeInitial(p.dataType, p.isNullable);
    ScalarLineShape(GetCSharpDataType(p.dataType, p.isNullable), ToPascalCase(titleCase, p.name));
  }

  lemma NavigationLineShape(principal: string, isNullable: bool, navigationName: string)
    ensures !IsScalarDeclaration(NavigationLine(principal, isNullable, navigationName))
    ensures NavigationLine(principal, isNullable, navigationName)[8] == 'p'
  {
  }

  lemma CollectionLineShape(dependent: string, collection: string)
    ensures !IsScalarDeclaration(CollectionLine(dependent, collection))
  {
  }

  lemma ForeignKeyAttributeShape(memberName: string)
    ensures !IsScalarDeclaration(ForeignKeyAttribute(memberName))
    ensures |ForeignKeyAttribute(memberName)| > 9
    ensures ForeignKeyAttribute(memberName)[8] == '[' && ForeignKeyAttribute(memberName)[9] == 'F'
  {
    NotScalarAt(ForeignKeyAttribute(memberName), 8);
  }

  lemma AnnotationTextShape(a: Annotation)
    ensures !IsScalarDeclaration(AnnotationText(a))
    ensures |AnnotationText(a)| > 9 && AnnotationText(a)[8] == '[' && AnnotationText(a)[9] != 'F'
  {
    AnnotationBodyTag(a);
    var r := AnnotationText(a);
    assert r[8] == '[' && r[9] == AnnotationBody(a)[0] == AnnotationTag(a)[0];
    NotScalarAt(r, 8);
  }

  lemma NavigationLinesShape(titleCase: CaseMapping, p: Property, a: Annotation)
    ensures forall l :: l in NavigationLines(titleCase, p) ==> !IsScalarDeclaration(l)
    ensures AnnotationText(a) !in NavigationLines(titleCase, p)
  {
    var lines := NavigationLines(titleCase, p);
    if HasNavigation(p) {
      var member := ToPascalCase(titleCase, p.name);
      var nav := NavigationLine(ToPascalCase(titleCase, p.referencedTable.value), p.isNullable, ToPascalCase(titleCase, p.navigationName.value));
      NavigationLineShape(ToPascalCase(titleCase, p.referencedTable.value), p.isNullable, ToPascalCase(titleCase, p.navigationName.value));
      ForeignKeyAttributeShape(member);
      AnnotationTextShape(a);
      if |lines| == 2 {
        assert lines == [ForeignKeyAttribute(member), nav];
      } else {
        assert lines == [nav];
      }
    }
  }

  lemma AnnotationLinesNotScalar(p: Property)
    ensures forall l :: l in AnnotationLines(p) ==> !IsScalarDeclaration(l)
  {
    var annotations := Annotations(p);
    var lines := AnnotationLines(p);
    forall l | l in lines ensures !IsScalarDeclaration(l) {
      var i :| 0 <= i < |lines| && lines[i] == l;
      AnnotationTextShape(annotations[i]);
    }
  }

  lemma PropertyBlockScalars(titleCase: CaseMapping, p: Property)
    ensures ScalarDeclarations(PropertyBlock(titleCase, p)) == [ScalarMember(titleCase, p)]
  {
    var annotations := AnnotationLines(p);
    var scalar := ScalarMember(titleCase, p);
    var nav := NavigationLines(titleCase, p);
    AnnotationLinesNotScalar(p);
    NavigationLinesShape(titleCase, p, Key);
    NoScalarDeclarations(annotations);
    NoScalarDeclarations(nav);
    ScalarMemberShape(titleCase, p);
    assert ScalarDeclarations([scalar]) == [scalar] by {
      assert [scalar][..0] == [];
    }
    ScalarDeclarationsAppend(annotations, [scalar]);
    ScalarDeclarationsAppend(annotations + [scalar], nav);
  }

  /** The scalar members of the properties, in declared order. */
  function ScalarMembers(titleCase: CaseMapping, props: seq<Property>): (r: seq<string>)
    ensures |r| == |props|
    decreases |props|
  {
    if props == [] then []
    else ScalarMembers(titleCase, props[..|props| - 1]) + [ScalarMember(titleCase, props[|props| - 1])]
  }

  lemma {:induction false} ScalarMembersAt(titleCase: CaseMapping, props: seq<Property>, i: nat)
    requires i < |props|
    ensures ScalarMembers(titleCase, props)[i] == ScalarMember(titleCase, props[i])
    decreases |props|
  {
    if i < |props| - 1 {
      ScalarMembersAt(titleCase, props[..|props| - 1], i);
    }
  }

  lemma {:induction false} PropertyBlocksScalars(titleCase: CaseMapping, props: seq<Property>)
    ensures ScalarDeclarations(PropertyBlocks(titleCase, props)) == ScalarMembers(titleCase, props)
    decreases |props|
  {
    if props != [] {
      var init := props[..|props| - 1];
      PropertyBlocksScalars(titleCase, init);
      ScalarDeclarationsAppend(PropertyBlocks(titleCase, init), PropertyBlock(titleCase, props[|props| - 1]));
      PropertyBlockScalars(titleCase, props[|props| - 1]);
    }
  }

  lemma {:induction false} InverseLinesNotScalar(titleCase: CaseMapping, props: seq<Property>, entries: seq<InverseNavigation>)
    ensures ScalarDeclarations(InverseCollectionLines(titleCase, props, entries)) == []
    decreases |entries|
  {
    if entries != [] {
      var e := entries[|entries| - 1];
      var init := entries[..|entries| - 1];
      InverseLinesNotScalar(titleCase, props, init);
      var added := if CollidesWithMember(titleCase, props, CollectionName(titleCase, e)) then [] else ["", CollectionMember(titleCase, e)];
      CollectionLineShape(ToPascalCase(titleCase, e.referencingTable), CollectionName(titleCase, e));
      NoScalarDeclarations(added);
      ScalarDeclarationsAppend(InverseCollectionLines(titleCase, props, init), added);
    }
  }

  lemma HeaderNotScalar(rootNamespace: string, entityName: string)
    ensures ScalarDeclarations(EntityHeader(rootNamespace, entityName)) == []
    ensures ScalarDeclarations(EntityFooter) == []
  {
    var header := EntityHeader(rootNamespace, entityName);
    NotScalarAt(header[0], 0);
    NotScalarAt(header[2], 4);
    NotScalarAt(header[3], 4);
    NotScalarAt(header[4], 4);
    NotScalarAt(header[5], 4);
    NotScalarAt(header[7], 4);
    NoScalarDeclarations(header);
    NoScalarDeclarations(EntityFooter);
  }

  /**
   * The generated class declares exactly one scalar member per property, in
   * declared order: no other line of the class has the shape of one.
   */
  lemma EntityScalarMembers(titleCase: CaseMapping, table: Table, rootNamespace: string, inverse: InverseMap)
    ensures ScalarDeclarations(GenerateEntityClass(titleCase, table, rootNamespace, inverse))
            == ScalarMembers(titleCase, table.properties)
  {
    var header := EntityHeader(rootNamespace, ToPascalCase(titleCase, table.name));
    var blocks := PropertyBlocks(titleCase, table.properties);
    var inv := if table.name in inverse then InverseCollectionLines(titleCase, table.properties, inverse[table.name]) else [];
    HeaderNotScalar(rootNamespace, ToPascalCase(titleCase, table.name));
    PropertyBlocksScalars(titleCase, table.properties);
    if table.name in inverse {
      InverseLinesNotScalar(titleCase, table.properties, inverse[table.name]);
    }
    if table.name !in inverse {
      NoScalarDeclarations(inv);
    }
    OnlyMiddleScalars(header, blocks, inv, EntityFooter);
  }

  /** When the outer parts declare no scalar member, the scalar members of a file are those of its middle part. */
  lemma {:induction false} OnlyMiddleScalars(a: seq<string>, b: seq<string>, c: seq<string>, d: seq<string>)
    requires ScalarDeclarations(a) == [] && ScalarDeclarations(c) == [] && ScalarDeclarations(d) == []
    ensures ScalarDeclarations(a + b + c + d) == ScalarDeclarations(b)
  {
    ScalarDeclarationsAppend(a, b);
    ScalarDeclarationsAppend(a + b, c);
    ScalarDeclarationsAppend(a + b + c, d);
  }

  lemma AnnotationInLines(p: Property, a: Annotation)
    ensures AnnotationText(a) in AnnotationLines(p) <==> a in Annotations(p)
  {
    var text := AnnotationText(a);
    var annotations := Annotations(p);
    var lines := AnnotationLines(p);
    if a in annotations {
      var i :| 0 <= i < |annotations| && annotations[i] == a;
      assert lines[i] == text;
    }
    if text in lines {
      var i :| 0 <= i < |lines| && lines[i] == text;
      AnnotationTextInjective(annotations[i], a);
    }
  }

  /**
   * The annotations written above a property are exactly those its flags call
   * for: `[Key]` on primary keys, `[Required]` on non-nullable non-key strings,
   * and so on; nothing else in the property's block reads as an annotation.
   */
  lemma PropertyBlockAnnotations(titleCase: CaseMapping, p: Property, a: Annotation)
    ensures AnnotationText(a) in PropertyBlock(titleCase, p) <==> Applies(p, a)
  {
    AnnotationInLines(p, a);
    AnnotationTextShape(a);
    ScalarMemberShape(titleCase, p);
    NavigationLinesShape(titleCase, p, a);
  }

  /** `[Key]` marks exactly the primary keys, `[Required]` exactly the non-nullable non-key "string" properties. */
  lemma PropertyBlockKeyAndRequired(titleCase: CaseMapping, p: Property)
    ensures AnnotationText(Key) in PropertyBlock(titleCase, p) <==> p.isPrimaryKey
    ensures AnnotationText(Required) in PropertyBlock(titleCase, p) <==> NeedsRequired(p)
  {
    PropertyBlockAnnotations(titleCase, p, Key);
    PropertyBlockAnnotations(titleCase, p, Required);
  }

  /** When no inverse navigation collides, every one of them gets its collection, in map order. */
  lemma {:induction false} AllEmittedWithoutCollision(titleCase: CaseMapping, props: seq<Property>, entries: seq<InverseNavigation>)
    requires forall e :: e in entries ==> !CollidesWithMember(titleCase, props, CollectionName(titleCase, e))
    ensures EmittedInverses(titleCase, props, entries) == entries
    decreases |entries|
  {
    if entries != [] {
      var init, e := entries[..|entries| - 1], entries[|entries| - 1];
      assert entries == init + [e];
      assert !CollidesWithMember(titleCase, props, CollectionName(titleCase, e));
      AllEmittedWithoutCollision(titleCase, props, init);
    }
  }

  /** `x` occurs in `s` before an occurrence of `y`. */
  ghost predicate OccursInOrder<T>(s: seq<T>, x: T, y: T) {
    exists a, b :: 0 <= a < b < |s| && s[a] == x && s[b] == y
  }

  /** Emitting the inverse navigations of `init + [e]`: those of `init`, then `e` unless it collides. */
  lemma EmittedSnoc(titleCase: CaseMapping, props: seq<Property>, init: seq<InverseNavigation>, e: InverseNavigation)
    ensures EmittedInverses(titleCase, props, init + [e])
      == EmittedInverses(titleCase, props, init)
         + (if CollidesWithMember(titleCase, props, CollectionName(titleCase, e)) then [] else [e])
  {
    assert (init + [e])[..|init|] == init;
  }

  /** An index into the first part of a concatenation. */
  lemma IndexInPrefix<T>(s: seq<T>, front: seq<T>, back: seq<T>, k: nat)
    requires s == front + back && k < |front|
    ensures s[k] == front[k]
  {
  }

  /** Each inverse navigation is emitted as often as it is listed, unless its collection name collides. */
  lemma {:induction false} EmittedInversesCount(titleCase: CaseMapping, props: seq<Property>, entries: seq<InverseNavigation>, e: InverseNavigation)
    ensures multiset(EmittedInverses(titleCase, props, entries))[e]
      == if CollidesWithMember(titleCase, props, CollectionName(titleCase, e)) then 0 else multiset(entries)[e]
    decreases |entries|
  {
    if entries != [] {
      var init, last := entries[..|entries| - 1], entries[|entries| - 1];
      assert entries == init + [last];
      EmittedSnoc(titleCase, props, init, last);
      EmittedInversesCount(titleCase, props, init, e);
    }
  }

  /** Two non-colliding inverse navigations keep their relative order among the emitted ones. */
  lemma {:induction false} EmittedInOrder(titleCase: CaseMapping, props: seq<Property>, entries: seq<InverseNavigation>, i: nat, j: nat)
    requires i < j < |entries|
    requires !CollidesWithMember(titleCase, props, CollectionName(titleCase, entries[i]))
    requires !CollidesWithMember(titleCase, props, CollectionName(titleCase, entries[j]))
    ensures OccursInOrder(EmittedInverses(titleCase, props, entries), entries[i], entries[j])
    decreases |entries|
  {
    var init, e := entries[..|entries| - 1], entries[|entries| - 1];
    assert entries == init + [e];
    EmittedSnoc(titleCase, props, init, e);
    var earlier := EmittedInverses(titleCase, props, init);
    var emitted := EmittedInverses(titleCase, props, entries);
    var tail := if CollidesWithMember(titleCase, props, CollectionName(titleCase, e)) then [] else [e];
    assert emitted == earlier + tail;
    if j < |entries| - 1 {
      assert entries[i] == init[i] && entries[j] == init[j];
      EmittedInOrder(titleCase, props, init, i, j);
      var a, b :| 0 <= a < b < |earlier| && earlier[a] == entries[i] && earlier[b] == entries[j];
      IndexInPrefix(emitted, earlier, tail, a);
      IndexInPrefix(emitted, earlier, tail, b);
    } else {
      assert entries[i] == init[i] && entries[i] in init;
      var a :| 0 <= a < |earlier| && earlier[a] == entries[i];
      assert tail == [e];
      IndexInPrefix(emitted, earlier, tail, a);
      assert emitted[|earlier|] == e;
    }
  }

  /**
   * The collision check looks only at the table's own properties: two foreign
   * keys of one dependent table to the same principal, neither colliding, give
   * the principal the same collection member twice.
   */
  lemma {:induction false} DuplicateInverseCollections(titleCase: CaseMapping, props: seq<Property>, entries: seq<InverseNavigation>, i: nat, j: nat)
    requires i < j < |entries| && entries[i].referencingTable == entries[j].referencingTable
    requires !CollidesWithMember(titleCase, props, CollectionName(titleCase, entries[i]))
    requires !CollidesWithMember(titleCase, props, CollectionName(titleCase, entries[j]))
    ensures OccursInOrder(InverseCollectionLines(titleCase, props, entries),
      CollectionMember(titleCase, entries[i]), CollectionMember(titleCase, entries[i]))
  {
    var emitted := EmittedInverses(titleCase, props, entries);
    var lines := InverseCollectionLines(titleCase, props, entries);
    EmittedInOrder(titleCase, props, entries, i, j);
    var a, b :| 0 <= a < b < |emitted| && emitted[a] == entries[i] && emitted[b] == entries[j];
    assert lines[2 * a + 1] == CollectionMember(titleCase, entries[i]);
    assert lines[2 * b + 1] == CollectionMember(titleCase, entries[j]) == CollectionMember(titleCase, entries[i]);
  }

  /** The class depends on the inverse map only through the list stored under the table's raw name. */
  lemma EntityDependsOnRawEntryOnly(titleCase: CaseMapping, table: Table, rootNamespace: string, inverse1: InverseMap, inverse2: InverseMap)
    requires Lookup(inverse1, table.name) == Lookup(inverse2, table.name)
    ensures GenerateEntityClass(titleCase, table, rootNamespace, inverse1) == GenerateEntityClass(titleCase, table, rootNamespace, inverse2)
  {
    assert InverseCollectionLines(titleCase, table.properties, []) == [];
  }

  /**
   * The class has a blank line and a collection for each emitted inverse
   * navigation listed under the table's raw name, and no other lines beyond
   * its header, its property blocks and its footer. A table whose raw name is
   * not a key gets no collections, even when its PascalCase name is one.
   */
  lemma EntityInverseLookupIsRaw(titleCase: CaseMapping, table: Table, rootNamespace: string, inverse: InverseMap)
    ensures |GenerateEntityClass(titleCase, table, rootNamespace, inverse)|
      == 9 + |PropertyBlocks(titleCase, table.properties)|
         + 2 * |EmittedInverses(titleCase, table.properties, Lookup(inverse, table.name))| + 2
    ensures table.name !in inverse ==>
      GenerateEntityClass(titleCase, table, rootNamespace, inverse) == GenerateEntityClass(titleCase, table, rootNamespace, map[])
  {
    if table.name !in inverse {
      EntityDependsOnRawEntryOnly(titleCase, table, rootNamespace, inverse, map[]);
    }
  }
}
