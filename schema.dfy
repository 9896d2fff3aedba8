/** The schema a user submits: tables made of typed properties (the view models the generator reads). */
module Schema {
  import opened Strings

  /** One column of a table, with the fields the generators read. */
  datatype Property = Property(
    name: string,                   // PropertyName
    dataType: string,               // DataType, a free token such as "int" or "string"
    isPrimaryKey: bool,
    isNullable: bool,
    isForeignKey: bool,
    referencedTable: Option<string>,   // ReferencedTableName
    navigationName: Option<string>,    // NavigationPropertyName
    maxLength: Option<int>,
    isEmailAddress: bool,
    isPhoneNumber: bool,
    isUrl: bool,
    regexPattern: Option<string>,
    columnTypeName: Option<string>,
    isTimestamp: bool,
    isConcurrencyToken: bool)

  /** A foreign key that names both its navigation member and its principal table. */
  predicate HasNavigation(p: Property) {
    p.isForeignKey && !IsNullOrEmpty(p.navigationName) && !IsNullOrEmpty(p.referencedTable)
  }

  /** A table: its name and its properties in declared order. */
  datatype Table = Table(name: string, properties: seq<Property>)

  /** A table the generators take part in: its name is not blank. */
  predicate IsValidTable(t: Table) {
    !IsBlank(t.name)
  }

  /** The tables whose names are not blank, in their original order. */
  function ValidTables(tables: seq<Table>): (r: seq<Table>)
    ensures forall t :: t in r <==> t in tables && IsValidTable(t)
    ensures |r| <= |tables|
    ensures IsSubsequence(r, tables)
  {
    if tables == [] then []
    else
      var rest := ValidTables(tables[..|tables| - 1]);
      var last := tables[|tables| - 1];
      assert tables == tables[..|tables| - 1] + [last];
      if IsValidTable(last) then rest + [last] else rest
  }

  /** Every valid table is kept as often as it is listed; every other table is dropped. */
  lemma {:induction false} ValidTablesCount(tables: seq<Table>, t: Table)
    ensures multiset(ValidTables(tables))[t] == if IsValidTable(t) then multiset(tables)[t] else 0
  {
    if tables != [] {
      var init := tables[..|tables| - 1];
      assert tables == init + [tables[|tables| - 1]];
      ValidTablesCount(init, t);
    }
  }
}
