/**
 * `GenerateDbContextClass`: the database-context class, as a sequence of
 * lines. One `DbSet` per table, then the key and relationship configuration
 * inside `OnModelCreating`.
 */
module ContextGenerator {
  import opened Strings
  import opened Schema
  import opened Naming
  import opened Relationships

  /** The opening of the file, up to the blank line after the constructor; the class name is fixed. */
  function ContextHeader(rootNamespace: string): seq<string> {
    [ "namespace " + rootNamespace + ".Data",
      "{",
      "    using Microsoft.EntityFrameworkCore;",
      "    using " + rootNamespace + ".Entities;",
      "    using System.Linq;",
      "",
      "    public class ApplicationDbContext : DbContext",
      "    {",
      "        public ApplicationDbContext(DbContextOptions<ApplicationDbContext> options) : base(options)",
      "        {",
      "        }",
      "" ]
  }

  const ModelCreatingOpening: seq<string> :=
    [ "",
      "        protected override void OnModelCreating(ModelBuilder modelBuilder)",
      "        {",
      "            base.OnModelCreating(modelBuilder);",
      "" ]

  const ContextFooter: seq<string> := ["        }", "    }", "}"]

  // ---------------------------------------------------------------------------
  // DbSet members.

  function DbSetLine(entityName: string, setName: string): string {
    "        public DbSet<" + entityName + "> " + setName + " { get; set; }"
  }

  /** The `DbSet` a table receives: the entity's PascalCase name, pluralised. */
  function DbSetMember(titleCase: CaseMapping, t: Table): string {
    var entityName := ToPascalCase(titleCase, t.name);
    DbSetLine(entityName, Pluralize(entityName))
  }

  /** The loop over the tables that writes one `DbSet` per table, skipping blank names. */
  function DbSetLines(titleCase: CaseMapping, tables: seq<Table>): seq<string>
    decreases |tables|
  {
    if tables == [] then []
    else
      var t := tables[|tables| - 1];
      DbSetLines(titleCase, tables[..|tables| - 1]) + (if IsBlank(t.name) then [] else [DbSetMember(titleCase, t)])
  }

  /** The `DbSet` members of the given tables, one each, in order. */
  function DbSetsOf(titleCase: CaseMapping, tables: seq<Table>): (r: seq<string>)
    ensures |r| == |tables|
    decreases |tables|
  {
    if tables == [] then [] else DbSetsOf(titleCase, tables[..|tables| - 1]) + [DbSetMember(titleCase, tables[|tables| - 1])]
  }

  lemma {:induction false} DbSetsOfAt(titleCase: CaseMapping, tables: seq<Table>, i: nat)
    requires i < |tables|
    ensures DbSetsOf(titleCase, tables)[i] == DbSetMember(titleCase, tables[i])
    decreases |tables|
  {
    if i < |tables| - 1 {
      DbSetsOfAt(titleCase, tables[..|tables| - 1], i);
    }
  }

  /** There is exactly one `DbSet` per table with a non-blank name, in the tables' order. */
  lemma {:induction false} DbSetLinesOfValidTables(titleCase: CaseMapping, tables: seq<Table>)
    ensures DbSetLines(titleCase, tables) == DbSetsOf(titleCase, ValidTables(tables))
    decreases |tables|
  {
    if tables != [] {
      var init := tables[..|tables| - 1];
      var t := tables[|tables| - 1];
      DbSetLinesOfValidTables(titleCase, init);
      if !IsBlank(t.name) {
        var valid := ValidTables(init) + [t];
        assert ValidTables(tables) == valid;
        assert valid[..|valid| - 1] == ValidTables(init);
      }
    }
  }

  // ---------------------------------------------------------------------------
  // Primary keys.

  /** The primary-key properties, in declared order. */
  function PrimaryKeys(props: seq<Property>): (r: seq<Property>)
    ensures forall p :: p in r <==> p in props && p.isPrimaryKey
    ensures |r| <= |props|
    decreases |props|
  {
    if props == [] then []
    else
      var p := props[|props| - 1];
      assert props == props[..|props| - 1] + [p];
      PrimaryKeys(props[..|props| - 1]) + (if p.isPrimaryKey then [p] else [])
  }

  /** Filtering keeps the declared order: the keys of a concatenation are the keys of each part, in turn. */
  lemma {:induction false} PrimaryKeysAppend(a: seq<Property>, b: seq<Property>)
    ensures PrimaryKeys(a + b) == PrimaryKeys(a) + PrimaryKeys(b)
    decreases |b|
  {
    if b == [] {
      assert a + b == a;
    } else {
      assert (a + b)[..|a + b| - 1] == a + b[..|b| - 1];
      PrimaryKeysAppend(a, b[..|b| - 1]);
    }
  }

  /** `e.<Key>` for every key, in order. */
  function KeyAccessors(titleCase: CaseMapping, keys: seq<Property>): (r: seq<string>)
    ensures |r| == |keys|
    ensures forall i :: 0 <= i < |keys| ==> r[i] == "e." + ToPascalCase(titleCase, keys[i].name)
  {
    seq(|keys|, i requires 0 <= i < |keys| => "e." + ToPascalCase(titleCase, keys[i].name))
  }

  function SingleKeyLine(entityName: string, keyName: string): string {
    "            modelBuilder.Entity<" + entityName + ">().HasKey(e => e." + keyName + ");"
  }

  function CompositeKeyLine(entityName: string, accessors: seq<string>): string {
    "            modelBuilder.Entity<" + entityName + ">().HasKey(e => new { " + Join(", ", accessors) + " });"
  }

  /** The `HasKey` configuration: none without keys, one column for one key, an anonymous object for several. */
  function KeyLines(titleCase: CaseMapping, entityName: string, props: seq<Property>): (r: seq<string>)
    ensures var keys := PrimaryKeys(props);
      && (|r| == 0 <==> |keys| == 0)
      && (|keys| == 1 ==> r == [SingleKeyLine(entityName, ToPascalCase(titleCase, keys[0].name))])
      && (|keys| > 1 ==> r == [CompositeKeyLine(entityName, KeyAccessors(titleCase, keys))])
  {
    var keys := PrimaryKeys(props);
    if |keys| == 0 then []
    else if |keys| == 1 then [SingleKeyLine(entityName, ToPascalCase(titleCase, keys[0].name))]
    else [CompositeKeyLine(entityName, KeyAccessors(titleCase, keys))]
  }

  /** Filtering the keys again changes nothing. */
  lemma {:induction false} PrimaryKeysIdempotent(props: seq<Property>)
    ensures PrimaryKeys(PrimaryKeys(props)) == PrimaryKeys(props)
    decreases |props|
  {
    if props != [] {
      var init, p := props[..|props| - 1], props[|props| - 1];
      var keys := PrimaryKeys(init);
      PrimaryKeysIdempotent(init);
      PrimaryKeysAppend(keys, if p.isPrimaryKey then [p] else []);
      assert PrimaryKeys([p]) == PrimaryKeys([]) + (if p.isPrimaryKey then [p] else []);
    }
  }

  /**
   * The `HasKey` line depends on the properties only through their keys, and
   * there is one exactly when some property is a primary key.
   */
  lemma KeyLinesDependOnKeysOnly(titleCase: CaseMapping, entityName: string, props: seq<Property>)
    ensures KeyLines(titleCase, entityName, props) == KeyLines(titleCase, entityName, PrimaryKeys(props))
    ensures KeyLines(titleCase, entityName, props) == [] <==> forall p :: p in props ==> !p.isPrimaryKey
  {
    PrimaryKeysIdempotent(props);
    var keys := PrimaryKeys(props);
    if keys != [] {
      assert keys[0] in keys;
    }
  }

  /**
   * The accessors of the composite key follow the declared order: those of a
   * concatenation are those of each part, in turn, and a single property
   * contributes its own accessor once if it is a key and nothing otherwise.
   */
  lemma KeyAccessorsInOrder(titleCase: CaseMapping, a: seq<Property>, b: seq<Property>, p: Property)
    ensures KeyAccessors(titleCase, PrimaryKeys(a + b))
      == KeyAccessors(titleCase, PrimaryKeys(a)) + KeyAccessors(titleCase, PrimaryKeys(b))
    ensures KeyAccessors(titleCase, PrimaryKeys([p]))
      == if p.isPrimaryKey then ["e." + ToPascalCase(titleCase, p.name)] else []
  {
    PrimaryKeysAppend(a, b);
    KeyAccessorsAppend(titleCase, PrimaryKeys(a), PrimaryKeys(b));
    assert PrimaryKeys([p]) == PrimaryKeys([]) + (if p.isPrimaryKey then [p] else []);
  }

  /** The accessors of two lists of keys, one after the other. */
  lemma KeyAccessorsAppend(titleCase: CaseMapping, k1: seq<Property>, k2: seq<Property>)
    ensures KeyAccessors(titleCase, k1 + k2) == KeyAccessors(titleCase, k1) + KeyAccessors(titleCase, k2)
  {
    var r, r1, r2 := KeyAccessors(titleCase, k1 + k2), KeyAccessors(titleCase, k1), KeyAccessors(titleCase, k2);
    assert forall i :: 0 <= i < |r| ==> r[i] == (r1 + r2)[i] by {
      forall i | 0 <= i < |r|
        ensures r[i] == (r1 + r2)[i]
      {
        if i < |k1| {
          assert (k1 + k2)[i] == k1[i];
        } else {
          assert (k1 + k2)[i] == k2[i - |k1|];
        }
      }
    }
  }

  // ---------------------------------------------------------------------------
  // Relationships.

  /** An inverse entry written by the dependent entity `entityName` through its foreign key `foreignKey`. */
  predicate MatchesDependent(titleCase: CaseMapping, e: InverseNavigation, entityName: string, foreignKey: string) {
    ToPascalCase(titleCase, e.referencingTable) == entityName && ToPascalCase(titleCase, e.foreignKeyProperty) == foreignKey
  }

  /** `FirstOrDefault`: the first matching entry, or null. */
  function FirstMatch(titleCase: CaseMapping, entries: seq<InverseNavigation>, entityName: string, foreignKey: string)
    : (r: Option<InverseNavigation>)
    ensures r.None? <==> forall e :: e in entries ==> !MatchesDependent(titleCase, e, entityName, foreignKey)
    ensures r.Some? ==> r.value in entries && MatchesDependent(titleCase, r.value, entityName, foreignKey)
    decreases |entries|
  {
    if entries == [] then None
    else if MatchesDependent(titleCase, entries[0], entityName, foreignKey) then Some(entries[0])
    else
      assert entries == [entries[0]] + entries[1..];
      FirstMatch(titleCase, entries[1..], entityName, foreignKey)
  }

  /** The match returned is the earliest one: the first matching entry, whatever matches after it. */
  lemma {:induction false} FirstMatchIsFirst(titleCase: CaseMapping, entries: seq<InverseNavigation>, entityName: string, foreignKey: string, i: nat)
    requires i < |entries| && MatchesDependent(titleCase, entries[i], entityName, foreignKey)
    requires forall m :: 0 <= m < i ==> !MatchesDependent(titleCase, entries[m], entityName, foreignKey)
    ensures FirstMatch(titleCase, entries, entityName, foreignKey) == Some(entries[i])
    decreases i
  {
    if i > 0 {
      var rest := entries[1..];
      assert forall m :: 0 <= m < i - 1 ==> rest[m] == entries[m + 1];
      FirstMatchIsFirst(titleCase, rest, entityName, foreignKey, i - 1);
    }
  }

  const BareWithMany := "                .WithMany()"

  function WithManyLine(collection: string): string {
    "                .WithMany(p => p." + collection + ")"
  }

  /**
   * The `WithMany` step of a foreign key: the map is looked up under the
   * principal's PascalCase name; a matching entry names the collection.
   */
  function WithMany(titleCase: CaseMapping, inverse: InverseMap, entityName: string, p: Property): string
    requires HasNavigation(p)
  {
    var principal := ToPascalCase(titleCase, p.referencedTable.value);
    if principal in inverse then
      match FirstMatch(titleCase, inverse[principal], entityName, ToPascalCase(titleCase, p.name))
      case Some(e) => WithManyLine(Pluralize(ToPascalCase(titleCase, e.referencingTable)))
      case None => BareWithMany
    else BareWithMany
  }

  /**
   * `WithMany(p => p.<Entities>)` exactly when the list under the principal's
   * PascalCase name holds an entry of this entity and foreign key; otherwise
   * `WithMany()`. The collection is always the entity's own plural.
   */
  lemma {:induction false} WithManySpec(titleCase: CaseMapping, inverse: InverseMap, entityName: string, p: Property)
    requires HasNavigation(p)
    ensures var entries := Lookup(inverse, ToPascalCase(titleCase, p.referencedTable.value));
      var fk := ToPascalCase(titleCase, p.name);
      && ((exists e :: e in entries && MatchesDependent(titleCase, e, entityName, fk)) ==>
            WithMany(titleCase, inverse, entityName, p) == WithManyLine(Pluralize(entityName)))
      && ((forall e :: e in entries ==> !MatchesDependent(titleCase, e, entityName, fk)) ==>
            WithMany(titleCase, inverse, entityName, p) == BareWithMany)
  {
  }

  /** The two forms of the step are different lines. */
  lemma WithManyFormsDiffer(collection: string)
    ensures WithManyLine(collection) != BareWithMany
  {
    assert |WithManyLine(collection)| > |BareWithMany|;
  }

  function EntityLine(entityName: string): string {
    "            modelBuilder.Entity<" + entityName + ">()"
  }

  function HasOneLine(navigationName: string): string {
    "                .HasOne(e => e." + navigationName + ")"
  }

  function HasForeignKeyLine(foreignKey: string): string {
    "                .HasForeignKey(e => e." + foreignKey + ");"
  }

  /** The four-line relationship configuration of one foreign key. */
  function ForeignKeyConfiguration(titleCase: CaseMapping, inverse: InverseMap, entityName: string, p: Property): seq<string>
    requires HasNavigation(p)
  {
    [ EntityLine(entityName),
      HasOneLine(ToPascalCase(titleCase, p.navigationName.value)),
      WithMany(titleCase, inverse, entityName, p),
      HasForeignKeyLine(ToPascalCase(titleCase, p.name)) ]
  }

  /** The properties that get a relationship configuration, in declared order. */
  function NavigationProperties(props: seq<Property>): (r: seq<Property>)
    ensures forall p :: p in r <==> p in props && HasNavigation(p)
    decreases |props|
  {
    if props == [] then []
    else
      var p := props[|props| - 1];
      assert props == props[..|props| - 1] + [p];
      NavigationProperties(props[..|props| - 1]) + (if HasNavigation(p) then [p] else [])
  }

  /** Every property with navigation is configured as often as it occurs; the others not at all. */
  lemma {:induction false} NavigationPropertiesCount(props: seq<Property>, p: Property)
    ensures multiset(NavigationProperties(props))[p] == if HasNavigation(p) then multiset(props)[p] else 0
    decreases |props|
  {
    if props != [] {
      var init := props[..|props| - 1];
      assert props == init + [props[|props| - 1]];
      NavigationPropertiesCount(init, p);
    }
  }

  /** The loop over the foreign keys, skipping those without navigation or principal name. */
  function ForeignKeyLines(titleCase: CaseMapping, inverse: InverseMap, entityName: string, props: seq<Property>): (r: seq<string>)
    ensures |r| == 4 * |NavigationProperties(props)|
    decreases |props|
  {
    if props == [] then []
    else
      var p := props[|props| - 1];
      ForeignKeyLines(titleCase, inverse, entityName, props[..|props| - 1])
        + (if HasNavigation(p) then ForeignKeyConfiguration(titleCase, inverse, entityName, p) else [])
  }

  /** Appending to a sequence of four-line blocks: block `k` is an old block or the appended one. */
  lemma {:induction false} BlockAfterAppend(before: seq<string>, added: seq<string>, n: nat, k: nat, block: seq<string>)
    requires |before| == 4 * n && k <= n
    requires k < n ==> before[4 * k .. 4 * k + 4] == block
    requires k == n ==> added == block && |block| == 4
    ensures 4 * k + 4 <= |before + added|
    ensures (before + added)[4 * k .. 4 * k + 4] == block
  {
    if k < n {
      assert (before + added)[4 * k .. 4 * k + 4] == before[4 * k .. 4 * k + 4];
    } else {
      assert (before + added)[4 * k .. 4 * k + 4] == added;
    }
  }

  /**
   * Block `k` of the relationship configuration is the configuration of the
   * `k`-th foreign key with navigation: the blocks follow the declared order.
   */
  lemma {:induction false} ForeignKeyBlock(titleCase: CaseMapping, inverse: InverseMap, entityName: string, props: seq<Property>, k: nat)
    requires k < |NavigationProperties(props)|
    ensures 4 * k + 4 <= |ForeignKeyLines(titleCase, inverse, entityName, props)|
    ensures ForeignKeyLines(titleCase, inverse, entityName, props)[4 * k .. 4 * k + 4]
      == ForeignKeyConfiguration(titleCase, inverse, entityName, NavigationProperties(props)[k])
    decreases |props|
  {
    var init := props[..|props| - 1];
    var p := props[|props| - 1];
    var before := ForeignKeyLines(titleCase, inverse, entityName, init);
    var added := if HasNavigation(p) then ForeignKeyConfiguration(titleCase, inverse, entityName, p) else [];
    var navs := NavigationProperties(init);
    var q := NavigationProperties(props)[k];
    if k < |navs| {
      assert q == navs[k];
      ForeignKeyBlock(titleCase, inverse, entityName, init, k);
    } else {
      assert HasNavigation(p) && q == p;
    }
    BlockAfterAppend(before, added, |navs|, k, ForeignKeyConfiguration(titleCase, inverse, entityName, q));
  }

  /** Every configured foreign key starts at `Entity<E>()`, names its navigation and ends in `HasForeignKey`. */
  lemma {:induction false} ForeignKeyConfigurationShape(titleCase: CaseMapping, inverse: InverseMap, entityName: string, p: Property)
    requires HasNavigation(p)
    ensures var c := ForeignKeyConfiguration(titleCase, inverse, entityName, p);
      && c[0] == EntityLine(entityName)
      && c[1] == HasOneLine(ToPascalCase(titleCase, p.navigationName.value))
      && (c[2] == BareWithMany || c[2] == WithManyLine(Pluralize(entityName)))
      && c[3] == HasForeignKeyLine(ToPascalCase(titleCase, p.name))
  {
    var principal := ToPascalCase(titleCase, p.referencedTable.value);
    if principal in inverse {
      var found := FirstMatch(titleCase, inverse[principal], entityName, ToPascalCase(titleCase, p.name));
      if found.Some? {
        assert ToPascalCase(titleCase, found.value.referencingTable) == entityName;
      }
    }
  }

  /** The configuration of one table: its keys, then its relationships. */
  function TableConfiguration(titleCase: CaseMapping, inverse: InverseMap, t: Table): seq<string> {
    var entityName := ToPascalCase(titleCase, t.name);
    KeyLines(titleCase, entityName, t.properties) + ForeignKeyLines(titleCase, inverse, entityName, t.properties)
  }

  /** The loop over the tables inside `OnModelCreating`, skipping blank names. */
  function Configurations(titleCase: CaseMapping, inverse: InverseMap, tables: seq<Table>): seq<string>
    decreases |tables|
  {
    if tables == [] then []
    else
      var t := tables[|tables| - 1];
      Configurations(titleCase, inverse, tables[..|tables| - 1])
        + (if IsBlank(t.name) then [] else TableConfiguration(titleCase, inverse, t))
  }

  /** The configurations of `tables`, one after the other. */
  function TableConfigurations(titleCase: CaseMapping, inverse: InverseMap, tables: seq<Table>): seq<string>
    decreases |tables|
  {
    if tables == [] then []
    else TableConfigurations(titleCase, inverse, tables[..|tables| - 1]) + TableConfiguration(titleCase, inverse, tables[|tables| - 1])
  }

  /** The loop configures exactly the valid tables, each once, in the tables' order. */
  lemma {:induction false} ConfigurationsOfValidTables(titleCase: CaseMapping, inverse: InverseMap, tables: seq<Table>)
    ensures Configurations(titleCase, inverse, tables) == TableConfigurations(titleCase, inverse, ValidTables(tables))
    decreases |tables|
  {
    if tables != [] {
      var init := tables[..|tables| - 1];
      var t := tables[|tables| - 1];
      ConfigurationsOfValidTables(titleCase, inverse, init);
      if !IsBlank(t.name) {
        var valid := ValidTables(init) + [t];
        assert ValidTables(tables) == valid;
        assert valid[..|valid| - 1] == ValidTables(init);
      }
    }
  }

  /** `GenerateDbContextClass`. */
  function GenerateDbContextClass(titleCase: CaseMapping, tables: seq<Table>, rootNamespace: string): seq<string> {
    ContextHeader(rootNamespace)
      + DbSetLines(titleCase, tables)
      + ModelCreatingOpening
      + Configurations(titleCase, InverseRelationships(tables), tables)
      + ContextFooter
  }

  // ---------------------------------------------------------------------------
  // Properties of the generated context.

  /**
   * The file consists of the fixed opening, one `DbSet` per valid table, the
   * `OnModelCreating` opening, the configurations (see
   * `ConfigurationsOfValidTables`) and the closing braces; the class is
   * always `ApplicationDbContext`.
   */
  lemma DbContextLayout(titleCase: CaseMapping, tables: seq<Table>, rootNamespace: string)
    ensures var r := GenerateDbContextClass(titleCase, tables, rootNamespace);
      var n := |ValidTables(tables)|;
      && |r| >= 12 + n + 5 + 3
      && r[..12] == ContextHeader(rootNamespace)
      && r[12 .. 12 + n] == DbSetsOf(titleCase, ValidTables(tables))
      && r[12 + n .. 12 + n + 5] == ModelCreatingOpening
      && r[12 + n + 5 .. |r| - 3] == Configurations(titleCase, InverseRelationships(tables), tables)
      && r[|r| - 3 ..] == ContextFooter
  {
    DbSetLinesOfValidTables(titleCase, tables);
    var header := ContextHeader(rootNamespace);
    assert |header| == 12;
    FileLayout(header, DbSetLines(titleCase, tables), ModelCreatingOpening,
      Configurations(titleCase, InverseRelationships(tables), tables), ContextFooter);
  }

  /** Where the parts of a five-part file sit. */
  lemma FileLayout(a: seq<string>, b: seq<string>, c: seq<string>, d: seq<string>, e: seq<string>)
    ensures var r := a + b + c + d + e;
      && r[..|a|] == a
      && r[|a| .. |a| + |b|] == b
      && r[|a| + |b| .. |a| + |b| + |c|] == c
      && r[|a| + |b| + |c| .. |r| - |e|] == d
      && r[|r| - |e| ..] == e
  {
    var r := a + b + c + d + e;
    assert r == a + (b + (c + (d + e)));
    assert r[|a|..] == b + (c + (d + e));
    assert r[|a| + |b|..] == c + (d + e);
    assert r[|a| + |b| + |c|..] == d + e;
  }

  /**
   * When PascalCase leaves the principal's name unchanged, every foreign key
   * with navigation of a valid table finds its own entry and is configured
   * with the dependent entity's plural as the collection.
   */
  lemma {:induction false} StableNameFindsCollection(titleCase: CaseMapping, tables: seq<Table>, i: nat, j: nat)
    requires i < |tables| && j < |tables[i].properties|
    requires !IsBlank(tables[i].name) && HasNavigation(tables[i].properties[j])
    requires var principal := tables[i].properties[j].referencedTable.value;
      ToPascalCase(titleCase, principal) == principal
    ensures var entityName := ToPascalCase(titleCase, tables[i].name);
      WithMany(titleCase, InverseRelationships(tables), entityName, tables[i].properties[j])
        == WithManyLine(Pluralize(entityName))
  {
    var t := tables[i];
    var p := t.properties[j];
    RecordedUnderRawName(tables, i, j);
    assert MatchesDependent(titleCase, EntryFor(t.name, p), ToPascalCase(titleCase, t.name), ToPascalCase(titleCase, p.name));
    WithManySpec(titleCase, InverseRelationships(tables), ToPascalCase(titleCase, t.name), p);
  }

  /**
   * The context looks the map up under the PascalCase principal name while the
   * map is keyed by the raw name: when no foreign key spells the PascalCase
   * form, the relationship gets a bare `WithMany()`.
   */
  lemma {:induction false} RenamedPrincipalGetsBareWithMany(titleCase: CaseMapping, tables: seq<Table>, entityName: string, p: Property)
    requires HasNavigation(p)
    requires !SomeForeignKeyNames(tables, ToPascalCase(titleCase, p.referencedTable.value))
    ensures WithMany(titleCase, InverseRelationships(tables), entityName, p) == BareWithMany
  {
    var principal := ToPascalCase(titleCase, p.referencedTable.value);
    if principal in InverseRelationships(tables) {
      KeysAreRawReferences(tables, principal);
    }
  }
}
