/**
 * The relationship resolver: for every principal table named by a foreign key,
 * the list of foreign keys that point at it (the inverse navigations).
 */
module Relationships {
  import opened Strings
  import opened Schema

  /** One foreign key pointing at a principal table. */
  datatype InverseNavigation = InverseNavigation(
    referencingTable: string,          // the dependent table's raw name
    foreignKeyProperty: string,        // the foreign-key property's raw name
    navigationProperty: Option<string>)

  /** Principal table name (raw, as the foreign key spells it) to the foreign keys that point at it. */
  type InverseMap = map<string, seq<InverseNavigation>>

  /** A property that records an inverse navigation: a foreign key naming a non-empty principal. */
  predicate ContributesInverse(p: Property) {
    p.isForeignKey && !IsNullOrEmpty(p.referencedTable)
  }

  /** The entry a contributing property of table `tableName` records. */
  function EntryFor(tableName: string, p: Property): InverseNavigation {
    InverseNavigation(tableName, p.name, p.navigationName)
  }

  /** The list stored under `key`, or the empty list when the key is absent. */
  function Lookup(m: InverseMap, key: string): seq<InverseNavigation> {
    if key in m then m[key] else []
  }

  /** Append `e` to the list under `key`, creating the list first when the key is absent. */
  function Append(m: InverseMap, key: string, e: InverseNavigation): (r: InverseMap)
    ensures r.Keys == m.Keys + {key}
  {
    m[key := Lookup(m, key) + [e]]
  }

  /** The effect of the inner loop: the properties of one table, in order, added to `m`. */
  function AddProperties(m: InverseMap, tableName: string, props: seq<Property>): InverseMap
    decreases |props|
  {
    if props == [] then m
    else
      var before := AddProperties(m, tableName, props[..|props| - 1]);
      var p := props[|props| - 1];
      if ContributesInverse(p) then Append(before, p.referencedTable.value, EntryFor(tableName, p)) else before
  }

  /** `AnalyzeInverseRelationships` as a function: the tables, in order, blank-named ones skipped. */
  function InverseRelationships(tables: seq<Table>): InverseMap
    decreases |tables|
  {
    if tables == [] then map[]
    else
      var before := InverseRelationships(tables[..|tables| - 1]);
      var t := tables[|tables| - 1];
      if IsBlank(t.name) then before else AddProperties(before, t.name, t.properties)
  }

  /** `AnalyzeInverseRelationships`: fills the dictionary in place, table by table, property by property. */
  method AnalyzeInverseRelationships(tables: seq<Table>) returns (m: InverseMap)
    ensures m == InverseRelationships(tables)
  {
    m := map[];
    var i := 0;
    while i < |tables|
      invariant 0 <= i <= |tables|
      invariant m == InverseRelationships(tables[..i])
    {
      var table := tables[i];
      assert tables[..i + 1][..i] == tables[..i];
      if !IsBlank(table.name) {
        ghost var start := m;
        var j := 0;
        while j < |table.properties|
          invariant 0 <= j <= |table.properties|
          invariant m == AddProperties(start, table.name, table.properties[..j])
        {
          var prop := table.properties[j];
          assert table.properties[..j + 1][..j] == table.properties[..j];
          if ContributesInverse(prop) {
            var key := prop.referencedTable.value;
            if key !in m {
              m := m[key := []];
            }
            m := m[key := m[key] + [EntryFor(table.name, prop)]];
          }
          j := j + 1;
        }
        assert table.properties[..j] == table.properties;
      }
      i := i + 1;
    }
    assert tables[..i] == tables;
  }

  // ---------------------------------------------------------------------------
  // An independent description: the flat list of (principal, entry) pairs.

  /** The (principal, entry) pairs one table contributes, in property order. */
  function PropertyEntries(tableName: string, props: seq<Property>): seq<(string, InverseNavigation)>
    decreases |props|
  {
    if props == [] then []
    else
      var p := props[|props| - 1];
      PropertyEntries(tableName, props[..|props| - 1])
        + (if ContributesInverse(p) then [(p.referencedTable.value, EntryFor(tableName, p))] else [])
  }

  /** The (principal, entry) pairs of all tables, in table-then-property order, blank-named tables skipped. */
  function AllEntries(tables: seq<Table>): seq<(string, InverseNavigation)>
    decreases |tables|
  {
    if tables == [] then []
    else
      var t := tables[|tables| - 1];
      AllEntries(tables[..|tables| - 1]) + (if IsBlank(t.name) then [] else PropertyEntries(t.name, t.properties))
  }

  /** The entries recorded under `key`, in order. */
  function EntriesUnder(key: string, pairs: seq<(string, InverseNavigation)>): seq<InverseNavigation>
    decreases |pairs|
  {
    if pairs == [] then []
    else
      var last := pairs[|pairs| - 1];
      EntriesUnder(key, pairs[..|pairs| - 1]) + (if last.0 == key then [last.1] else [])
  }

  lemma {:induction false} EntriesUnderAppend(key: string, a: seq<(string, InverseNavigation)>, b: seq<(string, InverseNavigation)>)
    ensures EntriesUnder(key, a + b) == EntriesUnder(key, a) + EntriesUnder(key, b)
    decreases |b|
  {
    if b == [] {
      assert a + b == a;
    } else {
      assert (a + b)[..|a + b| - 1] == a + b[..|b| - 1];
      EntriesUnderAppend(key, a, b[..|b| - 1]);
    }
  }

  /** No key of the map holds an empty list. */
  ghost predicate NoEmptyLists(m: InverseMap) {
    forall k :: k in m ==> m[k] != []
  }

  lemma LookupAppend(m: InverseMap, key: string, e: InverseNavigation, k: string)
    ensures Lookup(Append(m, key, e), k) == if k == key then Lookup(m, k) + [e] else Lookup(m, k)
  {
  }

  lemma EntriesUnderOne(k: string, pair: (string, InverseNavigation))
    ensures EntriesUnder(k, [pair]) == if pair.0 == k then [pair.1] else []
  {
    assert [pair][..0] == [];
  }

  lemma {:induction false} LookupAppendStep(m: InverseMap, before: InverseMap, earlier: seq<InverseNavigation>,
                                            key: string, e: InverseNavigation, k: string)
    requires Lookup(before, k) == Lookup(m, k) + earlier
    ensures Lookup(Append(before, key, e), k) == Lookup(m, k) + (earlier + EntriesUnder(k, [(key, e)]))
  {
    EntriesUnderOne(k, (key, e));
    LookupAppend(before, key, e, k);
    if k == key {
      assert Lookup(m, k) + earlier + [e] == Lookup(m, k) + (earlier + [e]);
    }
  }

  lemma {:induction false} AddPropertiesLookup(m: InverseMap, tableName: string, props: seq<Property>, k: string)
    ensures Lookup(AddProperties(m, tableName, props), k) == Lookup(m, k) + EntriesUnder(k, PropertyEntries(tableName, props))
    decreases |props|
  {
    if props != [] {
      var init := props[..|props| - 1];
      var p := props[|props| - 1];
      var before := AddProperties(m, tableName, init);
      var earlier := EntriesUnder(k, PropertyEntries(tableName, init));
      AddPropertiesLookup(m, tableName, init, k);
      assert Lookup(before, k) == Lookup(m, k) + earlier;
      var tail := if ContributesInverse(p) then [(p.referencedTable.value, EntryFor(tableName, p))] else [];
      assert PropertyEntries(tableName, props) == PropertyEntries(tableName, init) + tail;
      EntriesUnderAppend(k, PropertyEntries(tableName, init), tail);
      if ContributesInverse(p) {
        assert AddProperties(m, tableName, props) == Append(before, p.referencedTable.value, EntryFor(tableName, p));
        LookupAppendStep(m, before, earlier, p.referencedTable.value, EntryFor(tableName, p), k);
      } else {
        assert AddProperties(m, tableName, props) == before;
        assert EntriesUnder(k, tail) == [];
      }
    }
  }

  lemma {:induction false} AddPropertiesNonEmpty(m: InverseMap, tableName: string, props: seq<Property>)
    requires NoEmptyLists(m)
    ensures NoEmptyLists(AddProperties(m, tableName, props))
    decreases |props|
  {
    if props != [] {
      AddPropertiesNonEmpty(m, tableName, props[..|props| - 1]);
    }
  }

  lemma {:induction false} InverseRelationshipsLookup(tables: seq<Table>, k: string)
    ensures Lookup(InverseRelationships(tables), k) == EntriesUnder(k, AllEntries(tables))
    decreases |tables|
  {
    if tables != [] {
      var init := tables[..|tables| - 1];
      var t := tables[|tables| - 1];
      InverseRelationshipsLookup(init, k);
      if !IsBlank(t.name) {
        AddPropertiesLookup(InverseRelationships(init), t.name, t.properties, k);
        EntriesUnderAppend(k, AllEntries(init), PropertyEntries(t.name, t.properties));
      } else {
        assert InverseRelationships(tables) == InverseRelationships(init);
        assert AllEntries(tables) == AllEntries(init) + [] == AllEntries(init);
      }
    }
  }

  lemma {:induction false} InverseRelationshipsNonEmpty(tables: seq<Table>)
    ensures NoEmptyLists(InverseRelationships(tables))
    decreases |tables|
  {
    if tables != [] {
      var init := tables[..|tables| - 1];
      var t := tables[|tables| - 1];
      InverseRelationshipsNonEmpty(init);
      if !IsBlank(t.name) {
        AddPropertiesNonEmpty(InverseRelationships(init), t.name, t.properties);
      }
    }
  }

  /**
   * What the resolver computes: every key holds a non-empty list, and the list
   * under a principal name is exactly the foreign keys naming it, in
   * table-then-property order; a name no foreign key uses is absent.
   */
  lemma InverseRelationshipsSpec(tables: seq<Table>)
    ensures NoEmptyLists(InverseRelationships(tables))
    ensures forall k :: Lookup(InverseRelationships(tables), k) == EntriesUnder(k, AllEntries(tables))
    ensures forall k :: k in InverseRelationships(tables) <==> EntriesUnder(k, AllEntries(tables)) != []
  {
    InverseRelationshipsNonEmpty(tables);
    forall k ensures Lookup(InverseRelationships(tables), k) == EntriesUnder(k, AllEntries(tables)) {
      InverseRelationshipsLookup(tables, k);
    }
  }

  // ---------------------------------------------------------------------------
  // The total number of entries.

  /** The number of entries over all keys of the map. */
  ghost function TotalEntries(m: InverseMap): nat
    decreases |m.Keys|
  {
    if m == map[] then 0
    else
      var k :| k in m;
      assert (m - {k}).Keys < m.Keys;
      |m[k]| + TotalEntries(m - {k})
  }

  lemma {:induction false} TotalEntriesAt(m: InverseMap, k: string)
    requires k in m
    ensures TotalEntries(m) == |m[k]| + TotalEntries(m - {k})
    decreases |m.Keys|
  {
    var c :| c in m && TotalEntries(m) == |m[c]| + TotalEntries(m - {c});
    if c != k {
      assert (m - {c}).Keys < m.Keys;
      assert (m - {k}).Keys < m.Keys;
      TotalEntriesAt(m - {c}, k);
      TotalEntriesAt(m - {k}, c);
      assert m - {c} - {k} == m - {k} - {c};
    }
  }

  lemma TotalEntriesAppend(m: InverseMap, key: string, e: InverseNavigation)
    ensures TotalEntries(Append(m, key, e)) == TotalEntries(m) + 1
  {
    var r := Append(m, key, e);
    TotalEntriesAt(r, key);
    assert r - {key} == m - {key};
    if key in m {
      TotalEntriesAt(m, key);
    } else {
      assert m - {key} == m;
    }
  }

  /** The number of properties that record an entry, over the non-blank tables. */
  function ContributingCount(tables: seq<Table>): nat
    decreases |tables|
  {
    if tables == [] then 0
    else
      var t := tables[|tables| - 1];
      ContributingCount(tables[..|tables| - 1]) + (if IsBlank(t.name) then 0 else ContributingProperties(t.properties))
  }

  function ContributingProperties(props: seq<Property>): nat
    decreases |props|
  {
    if props == [] then 0
    else ContributingProperties(props[..|props| - 1]) + (if ContributesInverse(props[|props| - 1]) then 1 else 0)
  }

  lemma {:induction false} AddPropertiesTotal(m: InverseMap, tableName: string, props: seq<Property>)
    ensures TotalEntries(AddProperties(m, tableName, props)) == TotalEntries(m) + ContributingProperties(props)
    decreases |props|
  {
    if props != [] {
      var p := props[|props| - 1];
      AddPropertiesTotal(m, tableName, props[..|props| - 1]);
      if ContributesInverse(p) {
        TotalEntriesAppend(AddProperties(m, tableName, props[..|props| - 1]), p.referencedTable.value, EntryFor(tableName, p));
      }
    }
  }

  /** Each contributing foreign key adds exactly one entry: the lists hold as many entries as there are such keys. */
  lemma {:induction false} InverseRelationshipsTotal(tables: seq<Table>)
    ensures TotalEntries(InverseRelationships(tables)) == ContributingCount(tables)
    decreases |tables|
  {
    if tables != [] {
      var t := tables[|tables| - 1];
      InverseRelationshipsTotal(tables[..|tables| - 1]);
      if !IsBlank(t.name) {
        AddPropertiesTotal(InverseRelationships(tables[..|tables| - 1]), t.name, t.properties);
      }
    }
  }

  /**
   * A contributing foreign key of a non-blank table is recorded under the raw
   * principal name it spells.
   */
  lemma {:induction false} RecordedUnderRawName(tables: seq<Table>, i: nat, j: nat)
    requires i < |tables| && j < |tables[i].properties|
    requires !IsBlank(tables[i].name) && ContributesInverse(tables[i].properties[j])
    ensures var p := tables[i].properties[j];
      p.referencedTable.value in InverseRelationships(tables)
      && EntryFor(tables[i].name, p) in InverseRelationships(tables)[p.referencedTable.value]
  {
    var t := tables[i];
    var p := t.properties[j];
    var key := p.referencedTable.value;
    InverseRelationshipsSpec(tables);
    PropertyEntriesContain(t.name, t.properties, j);
    AllEntriesContain(tables, i, (key, EntryFor(t.name, p)));
    EntriesUnderContain(key, AllEntries(tables), (key, EntryFor(t.name, p)));
  }

  lemma {:induction false} PropertyEntriesContain(tableName: string, props: seq<Property>, j: nat)
    requires j < |props| && ContributesInverse(props[j])
    ensures (props[j].referencedTable.value, EntryFor(tableName, props[j])) in PropertyEntries(tableName, props)
    decreases |props|
  {
    if j < |props| - 1 {
      PropertyEntriesContain(tableName, props[..|props| - 1], j);
    }
  }

  lemma {:induction false} AllEntriesContain(tables: seq<Table>, i: nat, pair: (string, InverseNavigation))
    requires i < |tables| && !IsBlank(tables[i].name)
    requires pair in PropertyEntries(tables[i].name, tables[i].properties)
    ensures pair in AllEntries(tables)
    decreases |tables|
  {
    if i < |tables| - 1 {
      AllEntriesContain(tables[..|tables| - 1], i, pair);
    }
  }

  lemma {:induction false} EntriesUnderContain(key: string, pairs: seq<(string, InverseNavigation)>, pair: (string, InverseNavigation))
    requires pair in pairs && pair.0 == key
    ensures pair.1 in EntriesUnder(key, pairs)
    decreases |pairs|
  {
    if pairs[|pairs| - 1] != pair {
      EntriesUnderContain(key, pairs[..|pairs| - 1], pair);
    }
  }

  /** A table of `tables` with a non-blank name has a contributing foreign key naming `key`. */
  ghost predicate SomeForeignKeyNames(tables: seq<Table>, key: string) {
    exists i, j :: 0 <= i < |tables| && 0 <= j < |tables[i].properties|
      && !IsBlank(tables[i].name) && ContributesInverse(tables[i].properties[j])
      && tables[i].properties[j].referencedTable.value == key
  }

  /** The converse of `RecordedUnderRawName`: every key of the map is a principal name some foreign key spells. */
  lemma {:induction false} KeysAreRawReferences(tables: seq<Table>, key: string)
    requires key in InverseRelationships(tables)
    ensures SomeForeignKeyNames(tables, key)
  {
    InverseRelationshipsSpec(tables);
    var pair := EntriesUnderSource(key, AllEntries(tables));
    AllEntriesSource(tables, pair);
  }

  lemma {:induction false} EntriesUnderSource(key: string, pairs: seq<(string, InverseNavigation)>) returns (pair: (string, InverseNavigation))
    requires EntriesUnder(key, pairs) != []
    ensures pair in pairs && pair.0 == key
    decreases |pairs|
  {
    var last := pairs[|pairs| - 1];
    if last.0 == key {
      pair := last;
    } else {
      pair := EntriesUnderSource(key, pairs[..|pairs| - 1]);
    }
  }

  lemma {:induction false} PropertyEntriesSource(tableName: string, props: seq<Property>, pair: (string, InverseNavigation))
    returns (j: nat)
    requires pair in PropertyEntries(tableName, props)
    ensures j < |props| && ContributesInverse(props[j]) && props[j].referencedTable.value == pair.0
    decreases |props|
  {
    var p := props[|props| - 1];
    if ContributesInverse(p) && pair == (p.referencedTable.value, EntryFor(tableName, p)) {
      j := |props| - 1;
    } else {
      j := PropertyEntriesSource(tableName, props[..|props| - 1], pair);
    }
  }

  lemma {:induction false} AllEntriesSource(tables: seq<Table>, pair: (string, InverseNavigation))
    requires pair in AllEntries(tables)
    ensures SomeForeignKeyNames(tables, pair.0)
    decreases |tables|
  {
    var t := tables[|tables| - 1];
    var init := tables[..|tables| - 1];
    if !IsBlank(t.name) && pair in PropertyEntries(t.name, t.properties) {
      var j := PropertyEntriesSource(t.name, t.properties, pair);
      assert tables[|tables| - 1].properties[j] == t.properties[j];
    } else {
      AllEntriesSource(init, pair);
      var i, j :| 0 <= i < |init| && 0 <= j < |init[i].properties|
        && !IsBlank(init[i].name) && ContributesInverse(init[i].properties[j])
        && init[i].properties[j].referencedTable.value == pair.0;
      assert tables[i] == init[i];
    }
  }
}
