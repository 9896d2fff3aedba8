/**
 * `GeneratorController`: the form post that registers a generation job, the
 * background job that stages the generated files and archives them, the
 * status query and the download. The host's file system is a class whose
 * steps may fail; the job id, the failures and their messages are chosen
 * by the environment.
 */
module GeneratorController {
  import opened Strings
  import opened Schema
  import opened Naming
  import opened Relationships
  import opened EntityGenerator
  import opened ContextGenerator
  import opened RepositoryGenerator
  import opened JobStatus

  /** The bound form: the options the job reads and the tables. */
  datatype SchemaRequest = SchemaRequest(rootNamespace: string, dbContextName: string, tables: seq<Table>)

  /** A path relative to the job's directory, one directory name per element. */
  type Path = seq<string>

  /**
   * The text of a generated file, named by the generator call that produces
   * it: the file holds the lines `Text(titleCase, g)`.
   */
  datatype Generated =
    | EntityClass(table: Table, rootNamespace: string, inverse: InverseMap)
    | DbContextClass(tables: seq<Table>, rootNamespace: string)
    | GenericIRepository(rootNamespace: string)
    | GenericRepositoryClass(rootNamespace: string, dbContextName: string)
    | SpecificIRepository(table: Table, rootNamespace: string)
    | SpecificRepositoryClass(table: Table, rootNamespace: string, dbContextName: string)

  function Text(titleCase: CaseMapping, g: Generated): seq<string> {
    match g
    case EntityClass(table, ns, inverse) => GenerateEntityClass(titleCase, table, ns, inverse)
    case DbContextClass(tables, ns) => GenerateDbContextClass(titleCase, tables, ns)
    case GenericIRepository(ns) => GenerateGenericIRepository(ns)
    case GenericRepositoryClass(ns, ctx) => GenerateGenericRepositoryClass(ns, ctx)
    case SpecificIRepository(table, ns) => GenerateSpecificIRepository(titleCase, table, ns)
    case SpecificRepositoryClass(table, ns, ctx) => GenerateSpecificRepositoryClass(titleCase, table, ns, ctx)
  }

  /** One generated source file: where it goes and what produces its text. */
  datatype GeneratedFile = GeneratedFile(path: Path, source: Generated)

  const QueuedMessage: string := "Đang chờ xử lý..."
  const ProcessingMessage: string := "Đang tạo mã..."
  const CompletedMessage: string := "Mã đã được tạo thành công!"
  const AcceptedMessage: string := "Quá trình tạo mã đã được khởi tạo."
  const JobNotFoundMessage: string := "Không tìm thấy công việc."

  function ErrorMessage(reason: string): string {
    "Đã xảy ra lỗi: " + reason
  }

  /** The archive's file name, which the job reports as the download name. */
  function ZipName(jobId: string): (r: string)
    ensures |r| == |jobId| + 18 && r[..14] == "GeneratedCode_" && r[|r| - 4..] == ".zip"
  {
    "GeneratedCode_" + jobId + ".zip"
  }

  /** Different jobs archive under different names. */
  lemma ZipNameInjective(a: string, b: string)
    ensures ZipName(a) == ZipName(b) <==> a == b
  {
    if ZipName(a) == ZipName(b) {
      assert a == ZipName(a)[14 .. |ZipName(a)| - 4] == b;
    }
  }

  // ---------------------------------------------------------------------
  // The staged files

  function EntityPath(entityName: string): Path {
    ["Entities", entityName + ".cs"]
  }

  function InterfacePath(fileStem: string): Path {
    ["Repositories", "Interfaces", fileStem + ".cs"]
  }

  function ImplementationPath(fileStem: string): Path {
    ["Repositories", "Implementations", fileStem + ".cs"]
  }

  function EntityFile(titleCase: CaseMapping, rootNamespace: string, inverse: InverseMap, t: Table): GeneratedFile {
    GeneratedFile(EntityPath(ToPascalCase(titleCase, t.name)), EntityClass(t, rootNamespace, inverse))
  }

  /** The first loop of the job: one entity file per table, in table order. */
  function EntityFiles(titleCase: CaseMapping, rootNamespace: string, inverse: InverseMap, tables: seq<Table>): (r: seq<GeneratedFile>)
    ensures |r| == |tables|
  {
    if tables == [] then []
    else
      EntityFiles(titleCase, rootNamespace, inverse, tables[..|tables| - 1])
      + [EntityFile(titleCase, rootNamespace, inverse, tables[|tables| - 1])]
  }

  lemma {:induction false} EntityFilesAt(titleCase: CaseMapping, rootNamespace: string, inverse: InverseMap, tables: seq<Table>, k: int)
    requires 0 <= k < |tables|
    ensures EntityFiles(titleCase, rootNamespace, inverse, tables)[k] == EntityFile(titleCase, rootNamespace, inverse, tables[k])
  {
    if k < |tables| - 1 {
      EntityFilesAt(titleCase, rootNamespace, inverse, tables[..|tables| - 1], k);
    }
  }

  lemma EntityFilesSnoc(titleCase: CaseMapping, rootNamespace: string, inverse: InverseMap, tables: seq<Table>, i: int)
    requires 0 <= i < |tables|
    ensures EntityFiles(titleCase, rootNamespace, inverse, tables[..i + 1])
      == EntityFiles(titleCase, rootNamespace, inverse, tables[..i]) + [EntityFile(titleCase, rootNamespace, inverse, tables[i])]
  {
    assert tables[..i + 1][..i] == tables[..i];
  }

  /** The data context and the two generic repository files. */
  function SharedFiles(titleCase: CaseMapping, request: SchemaRequest, validTables: seq<Table>): seq<GeneratedFile> {
    [ GeneratedFile(["Data", request.dbContextName + ".cs"], DbContextClass(validTables, request.rootNamespace)),
      GeneratedFile(InterfacePath("IRepository"), GenericIRepository(request.rootNamespace)),
      GeneratedFile(ImplementationPath("Repository"), GenericRepositoryClass(request.rootNamespace, request.dbContextName)) ]
  }

  function SpecificInterfaceFile(titleCase: CaseMapping, request: SchemaRequest, t: Table): GeneratedFile {
    GeneratedFile(InterfacePath(InterfaceName(ToPascalCase(titleCase, t.name))),
                  SpecificIRepository(t, request.rootNamespace))
  }

  function SpecificClassFile(titleCase: CaseMapping, request: SchemaRequest, t: Table): GeneratedFile {
    GeneratedFile(ImplementationPath(RepositoryName(ToPascalCase(titleCase, t.name))),
                  SpecificRepositoryClass(t, request.rootNamespace, request.dbContextName))
  }

  /** The second loop of the job: the specific interface and class for each table, in table order. */
  function RepositoryFiles(titleCase: CaseMapping, request: SchemaRequest, tables: seq<Table>): (r: seq<GeneratedFile>)
    ensures |r| == 2 * |tables|
  {
    if tables == [] then []
    else
      var t := tables[|tables| - 1];
      RepositoryFiles(titleCase, request, tables[..|tables| - 1])
      + [SpecificInterfaceFile(titleCase, request, t), SpecificClassFile(titleCase, request, t)]
  }

  lemma {:induction false} RepositoryFilesAt(titleCase: CaseMapping, request: SchemaRequest, tables: seq<Table>, k: int)
    requires 0 <= k < |tables|
    ensures RepositoryFiles(titleCase, request, tables)[2 * k] == SpecificInterfaceFile(titleCase, request, tables[k])
    ensures RepositoryFiles(titleCase, request, tables)[2 * k + 1] == SpecificClassFile(titleCase, request, tables[k])
  {
    if k < |tables| - 1 {
      RepositoryFilesAt(titleCase, request, tables[..|tables| - 1], k);
    }
  }

  /** Every file the job writes, in the order it writes them. */
  function StagedPlan(titleCase: CaseMapping, request: SchemaRequest, validTables: seq<Table>): seq<GeneratedFile> {
    var inverse := InverseRelationships(validTables);
    EntityFiles(titleCase, request.rootNamespace, inverse, validTables)
    + SharedFiles(titleCase, request, validTables)
    + RepositoryFiles(titleCase, request, validTables)
  }

  /**
   * The plan holds 3n + 3 files for n tables: the entity files first, then the
   * data context named after the configured context name, the two generic
   * repository files, and the specific pairs.
   */
  lemma StagedPlanShared(titleCase: CaseMapping, request: SchemaRequest, validTables: seq<Table>)
    ensures var plan := StagedPlan(titleCase, request, validTables);
      var n := |validTables|;
      && |plan| == 3 * n + 3
      && plan[n].path == ["Data", request.dbContextName + ".cs"]
      && plan[n].source == DbContextClass(validTables, request.rootNamespace)
      && plan[n + 1].source == GenericIRepository(request.rootNamespace)
      && plan[n + 2].source == GenericRepositoryClass(request.rootNamespace, request.dbContextName)
      && plan[n + 1].path == ["Repositories", "Interfaces", "IRepository.cs"]
      && plan[n + 2].path == ["Repositories", "Implementations", "Repository.cs"]
  {
    assert "IRepository" + ".cs" == "IRepository.cs";
    assert "Repository" + ".cs" == "Repository.cs";
    var inverse := InverseRelationships(validTables);
    PlanLayout(EntityFiles(titleCase, request.rootNamespace, inverse, validTables), SharedFiles(titleCase, request, validTables),
               RepositoryFiles(titleCase, request, validTables));
  }

  /** Where the parts of a three-part concatenation sit. */
  lemma PlanLayout<T>(a: seq<T>, b: seq<T>, c: seq<T>)
    ensures |a + b + c| == |a| + |b| + |c|
    ensures forall j :: 0 <= j < |a| ==> (a + b + c)[j] == a[j]
    ensures forall j :: 0 <= j < |b| ==> (a + b + c)[|a| + j] == b[j]
    ensures forall j :: 0 <= j < |c| ==> (a + b + c)[|a| + |b| + j] == c[j]
  {
  }

  /** The k-th table's entity file sits at position k of the plan, named after the table's PascalCase name. */
  lemma {:induction false} StagedPlanEntity(titleCase: CaseMapping, request: SchemaRequest, validTables: seq<Table>, k: int)
    requires 0 <= k < |validTables|
    ensures var plan := StagedPlan(titleCase, request, validTables);
      var name := ToPascalCase(titleCase, validTables[k].name);
      && |plan| == 3 * |validTables| + 3
      && plan[k].path == ["Entities", name + ".cs"]
      && plan[k].source == EntityClass(validTables[k], request.rootNamespace, InverseRelationships(validTables))
  {
    EntityFilesAt(titleCase, request.rootNamespace, InverseRelationships(validTables), validTables, k);
  }

  /** The k-th table's repository pair sits after the shared files, interface first. */
  lemma {:induction false} StagedPlanRepositories(titleCase: CaseMapping, request: SchemaRequest, validTables: seq<Table>, k: int)
    requires 0 <= k < |validTables|
    ensures var plan := StagedPlan(titleCase, request, validTables);
      var n := |validTables|;
      && |plan| == 3 * n + 3
      && plan[n + 3 + 2 * k] == SpecificInterfaceFile(titleCase, request, validTables[k])
      && plan[n + 4 + 2 * k] == SpecificClassFile(titleCase, request, validTables[k])
  {
    var e := EntityFiles(titleCase, request.rootNamespace, InverseRelationships(validTables), validTables);
    var s := SharedFiles(titleCase, request, validTables);
    var r := RepositoryFiles(titleCase, request, validTables);
    assert StagedPlan(titleCase, request, validTables) == e + s + r;
    RepositoryFilesAt(titleCase, request, validTables, k);
    ThirdPartAt(e, s, r, 2 * k);
    ThirdPartAt(e, s, r, 2 * k + 1);
  }

  lemma ThirdPartAt<T>(a: seq<T>, b: seq<T>, c: seq<T>, j: int)
    requires 0 <= j < |c|
    ensures |a + b + c| == |a| + |b| + |c| && (a + b + c)[|a| + |b| + j] == c[j]
  {
  }

  /** The specific files go to `Interfaces/I<Entity>Repository.cs` and `Implementations/<Entity>Repository.cs`. */
  lemma SpecificFilePaths(titleCase: CaseMapping, request: SchemaRequest, t: Table)
    ensures var name := ToPascalCase(titleCase, t.name);
      && SpecificInterfaceFile(titleCase, request, t).path == ["Repositories", "Interfaces", "I" + name + "Repository.cs"]
      && SpecificClassFile(titleCase, request, t).path == ["Repositories", "Implementations", name + "Repository.cs"]
  {
    var name := ToPascalCase(titleCase, t.name);
    assert InterfaceName(name) + ".cs" == "I" + name + "Repository.cs";
    assert RepositoryName(name) + ".cs" == name + "Repository.cs";
  }

  /** Each specific repository file is named after the interface or class it declares. */
  lemma SpecificFilesNamedAfterDeclarations(titleCase: CaseMapping, request: SchemaRequest, t: Table)
    ensures var name := ToPascalCase(titleCase, t.name);
      var iface := SpecificInterfaceFile(titleCase, request, t);
      var impl := SpecificClassFile(titleCase, request, t);
      && iface.path == InterfacePath(InterfaceName(name))
      && Text(titleCase, iface.source)[6] == InterfaceDeclaration(name)
      && impl.path == ImplementationPath(RepositoryName(name))
      && Text(titleCase, impl.source)[10] == ClassDeclaration(name)
  {
    var name := ToPascalCase(titleCase, t.name);
    assert GenerateSpecificIRepository(titleCase, t, request.rootNamespace)[6] == InterfaceDeclaration(name);
  }

  // ---------------------------------------------------------------------
  // The job's directory

  /** The directory tree `dir` becomes after writing `files` in order: a later write to a path replaces an earlier one. */
  function WriteAll(dir: map<Path, Generated>, files: seq<GeneratedFile>): map<Path, Generated> {
    if files == [] then dir
    else
      var last := files[|files| - 1];
      WriteAll(dir, files[..|files| - 1])[last.path := last.source]
  }

  /** After the writes, the directory holds exactly the paths it held and the paths written. */
  lemma {:induction false} WriteAllPaths(dir: map<Path, Generated>, files: seq<GeneratedFile>, p: Path)
    ensures p in WriteAll(dir, files) <==> p in dir || exists i :: 0 <= i < |files| && files[i].path == p
  {
    if files != [] {
      var init := files[..|files| - 1];
      WriteAllPaths(dir, init, p);
      if p in WriteAll(dir, init) && p !in dir {
        var i :| 0 <= i < |init| && init[i].path == p;
        assert files[i].path == p;
      }
      if exists i :: 0 <= i < |files| && files[i].path == p {
        var i :| 0 <= i < |files| && files[i].path == p;
        if i < |init| {
          assert init[i].path == p;
        }
      }
    }
  }

  /** A path holds what the last file written to it holds. */
  lemma {:induction false} WriteAllLastWrite(dir: map<Path, Generated>, files: seq<GeneratedFile>, i: int)
    requires 0 <= i < |files|
    requires forall j :: i < j < |files| ==> files[j].path != files[i].path
    ensures files[i].path in WriteAll(dir, files)
    ensures WriteAll(dir, files)[files[i].path] == files[i].source
  {
    if i < |files| - 1 {
      var init := files[..|files| - 1];
      assert init[i] == files[i];
      WriteAllLastWrite(dir, init, i);
    }
  }

  lemma WriteAllStep(dir: map<Path, Generated>, files: seq<GeneratedFile>, f: GeneratedFile)
    ensures WriteAll(dir, files + [f]) == WriteAll(dir, files)[f.path := f.source]
  {
    assert (files + [f])[..|files|] == files;
  }

  /** Writing two batches one after the other is writing their concatenation. */
  lemma {:induction false} WriteAllAppend(dir: map<Path, Generated>, a: seq<GeneratedFile>, b: seq<GeneratedFile>)
    ensures WriteAll(dir, a + b) == WriteAll(WriteAll(dir, a), b)
  {
    if b == [] {
      assert a + b == a;
    } else {
      var init := b[..|b| - 1];
      WriteAllAppend(dir, a, init);
      assert (a + b)[..|a + b| - 1] == a + init;
    }
  }

  /** `part` holds only files of `dir`, each with its content there: what a partly written archive of `dir` can hold. */
  predicate PartOf(part: map<Path, Generated>, dir: map<Path, Generated>) {
    forall p :: p in part ==> p in dir && part[p] == dir[p]
  }

  /**
   * A failed archive step changed nothing, or it left a partial archive of
   * `dir` under the new name `zipName` and changed nothing else.
   */
  ghost predicate AtMostPartialArchive(before: map<string, map<Path, Generated>>, after: map<string, map<Path, Generated>>,
                                       zipName: string, dir: map<Path, Generated>) {
    || after == before
    || (&& zipName !in before
        && zipName in after
        && after == before[zipName := after[zipName]]
        && PartOf(after[zipName], dir))
  }

  /**
   * The host's file system: the job's directory and the archives in the
   * temporary directory, by file name. Each step may fail, with a message the
   * model does not fix.
   */
  class HostFileSystem {
    var jobDirectory: map<Path, Generated>
    var archives: map<string, map<Path, Generated>>

    constructor(archives: map<string, map<Path, Generated>>)
      ensures this.archives == archives && jobDirectory == map[]
    {
      this.archives := archives;
      jobDirectory := map[];
    }

    /** Creates the job's directory and its five sub-directories; a fresh job directory holds no file. */
    method CreateJobDirectories() returns (err: Option<string>)
      modifies this
      ensures jobDirectory == map[] && archives == old(archives)
    {
      jobDirectory := map[];
      var failed: bool :| true;
      if failed {
        var reason: string :| true;
        err := Some(reason);
      } else {
        err := None;
      }
    }

    /** `File.WriteAllTextAsync`: creates or replaces one file of the job's directory. */
    method WriteFile(file: GeneratedFile) returns (err: Option<string>)
      modifies this
      ensures err.None? ==> jobDirectory == old(jobDirectory)[file.path := file.source]
      ensures err.Some? ==> jobDirectory == old(jobDirectory)
      ensures archives == old(archives)
    {
      var failed: bool :| true;
      if failed {
        var reason: string :| true;
        err := Some(reason);
      } else {
        jobDirectory := jobDirectory[file.path := file.source];
        err := None;
      }
    }

    /**
     * `ZipFile.CreateFromDirectory`: archives the job's directory under
     * `zipName`. It fails, changing nothing, when an archive of that name
     * already exists. Otherwise it creates the archive and adds the files one
     * by one, so a failure part-way leaves a partial archive behind.
     */
    method Archive(zipName: string) returns (err: Option<string>)
      modifies this
      ensures zipName in old(archives) ==> err.Some? && archives == old(archives)
      ensures err.None? ==> archives == old(archives)[zipName := jobDirectory]
      ensures err.Some? ==> AtMostPartialArchive(old(archives), archives, zipName, jobDirectory)
      ensures jobDirectory == old(jobDirectory)
    {
      var failed: bool :| true;
      if zipName in archives {
        var reason: string :| true;
        err := Some(reason);
      } else if failed {
        var created: bool :| true;
        if created {
          assert PartOf(map[], jobDirectory);
          var written: map<Path, Generated> :| PartOf(written, jobDirectory);
          archives := archives[zipName := written];
        }
        var reason: string :| true;
        err := Some(reason);
      } else {
        archives := archives[zipName := jobDirectory];
        err := None;
      }
    }

    /** `Directory.Delete`: removes the job's directory; the archives stay. */
    method DeleteJobDirectory() returns (err: Option<string>)
      modifies this
      ensures err.None? ==> jobDirectory == map[]
      ensures err.Some? ==> jobDirectory == old(jobDirectory)
      ensures archives == old(archives)
    {
      var failed: bool :| true;
      if failed {
        var reason: string :| true;
        err := Some(reason);
      } else {
        jobDirectory := map[];
        err := None;
      }
    }
  }

  // ---------------------------------------------------------------------
  // What the archive holds

  lemma SuffixInjective(a: string, b: string, suffix: string)
    ensures a + suffix == b + suffix <==> a == b
  {
    if a + suffix == b + suffix {
      assert a == (a + suffix)[..|a|] && b == (b + suffix)[..|b|];
    }
  }

  /** A path no file is written to keeps what the directory held. */
  lemma {:induction false} WriteAllUntouched(dir: map<Path, Generated>, files: seq<GeneratedFile>, p: Path)
    requires forall i :: 0 <= i < |files| ==> files[i].path != p
    ensures p in WriteAll(dir, files) <==> p in dir
    ensures p in dir ==> WriteAll(dir, files)[p] == dir[p]
  {
    if files != [] {
      var init := files[..|files| - 1];
      assert forall i :: 0 <= i < |init| ==> init[i] == files[i];
      WriteAllUntouched(dir, init, p);
    }
  }

  /** Interface files with different stems go to different paths, and so do implementation files. */
  lemma RepositoryPathsInjective(a: string, b: string)
    ensures InterfacePath(a) == InterfacePath(b) <==> a == b
    ensures ImplementationPath(a) == ImplementationPath(b) <==> a == b
  {
    SuffixInjective(a, b, ".cs");
  }

  /** The path of the m-th specific file: the interface or the class of the k-th table. */
  lemma {:induction false} RepositoryFilePath(titleCase: CaseMapping, request: SchemaRequest, tables: seq<Table>, m: int) returns (k: int)
    requires 0 <= m < 2 * |tables|
    ensures 0 <= k < |tables| && (m == 2 * k || m == 2 * k + 1)
    ensures var name := ToPascalCase(titleCase, tables[k].name);
      RepositoryFiles(titleCase, request, tables)[m].path ==
        if m == 2 * k then InterfacePath(InterfaceName(name)) else ImplementationPath(RepositoryName(name))
  {
    k := m / 2;
    RepositoryFilesAt(titleCase, request, tables, k);
  }

  /** Every specific repository file lies under `Repositories`. */
  lemma RepositoryFilesUnderRepositories(titleCase: CaseMapping, request: SchemaRequest, tables: seq<Table>)
    ensures forall m :: 0 <= m < 2 * |tables| ==>
      |RepositoryFiles(titleCase, request, tables)[m].path| == 3 && RepositoryFiles(titleCase, request, tables)[m].path[0] == "Repositories"
  {
    var files := RepositoryFiles(titleCase, request, tables);
    forall m | 0 <= m < |files|
      ensures |files[m].path| == 3 && files[m].path[0] == "Repositories"
    {
      var k := RepositoryFilePath(titleCase, request, tables, m);
    }
  }

  /** Unless a table's PascalCase name is empty, no specific file lands on a generic file's path. */
  lemma {:induction false} RepositoryFilesAvoidGeneric(titleCase: CaseMapping, request: SchemaRequest, tables: seq<Table>)
    requires forall m :: 0 <= m < |tables| ==> ToPascalCase(titleCase, tables[m].name) != ""
    ensures forall m :: 0 <= m < 2 * |tables| ==>
      && RepositoryFiles(titleCase, request, tables)[m].path != InterfacePath("IRepository")
      && RepositoryFiles(titleCase, request, tables)[m].path != ImplementationPath("Repository")
  {
    var files := RepositoryFiles(titleCase, request, tables);
    forall m | 0 <= m < |files|
      ensures files[m].path != InterfacePath("IRepository") && files[m].path != ImplementationPath("Repository")
    {
      var k := RepositoryFilePath(titleCase, request, tables, m);
      var name := ToPascalCase(titleCase, tables[k].name);
      RepositoryPathsInjective(InterfaceName(name), "IRepository");
      RepositoryPathsInjective(RepositoryName(name), "Repository");
    }
  }

  /** Within the specific files, the j-th table's files are not rewritten by a later table with another PascalCase name. */
  lemma {:induction false} RepositoryPathsDistinctAfter(titleCase: CaseMapping, request: SchemaRequest, tables: seq<Table>, j: int, i: int)
    requires 0 <= j < |tables|
    requires forall m :: j < m < |tables| ==> ToPascalCase(titleCase, tables[m].name) != ToPascalCase(titleCase, tables[j].name)
    requires i == 2 * j || i == 2 * j + 1
    ensures forall m :: i < m < 2 * |tables| ==>
      RepositoryFiles(titleCase, request, tables)[m].path != RepositoryFiles(titleCase, request, tables)[i].path
  {
    var files := RepositoryFiles(titleCase, request, tables);
    forall m | i < m < |files|
      ensures files[m].path != files[i].path
    {
      RepositoryPathDiffers(titleCase, request, tables, j, i, m);
    }
  }

  lemma {:induction false} RepositoryPathDiffers(titleCase: CaseMapping, request: SchemaRequest, tables: seq<Table>, j: int, i: int, m: int)
    requires 0 <= j < |tables|
    requires forall m :: j < m < |tables| ==> ToPascalCase(titleCase, tables[m].name) != ToPascalCase(titleCase, tables[j].name)
    requires i == 2 * j || i == 2 * j + 1
    requires i < m < 2 * |tables|
    ensures RepositoryFiles(titleCase, request, tables)[m].path != RepositoryFiles(titleCase, request, tables)[i].path
  {
    var name := ToPascalCase(titleCase, tables[j].name);
    var kj := RepositoryFilePath(titleCase, request, tables, i);
    assert kj == j;
    var k := RepositoryFilePath(titleCase, request, tables, m);
    if k > j {
      var other := ToPascalCase(titleCase, tables[k].name);
      RepositoryNamesInjective(other, name);
      RepositoryPathsInjective(InterfaceName(other), InterfaceName(name));
      RepositoryPathsInjective(RepositoryName(other), RepositoryName(name));
    } else {
      assert k == j && i == 2 * j && m == 2 * j + 1;
    }
  }

  /** Within the entity files, the j-th table's file is not rewritten by a later table with another PascalCase name. */
  lemma {:induction false} EntityPathsDistinctAfter(titleCase: CaseMapping, rootNamespace: string, inverse: InverseMap, tables: seq<Table>, j: int)
    requires 0 <= j < |tables|
    requires forall m :: j < m < |tables| ==> ToPascalCase(titleCase, tables[m].name) != ToPascalCase(titleCase, tables[j].name)
    ensures var files := EntityFiles(titleCase, rootNamespace, inverse, tables);
      forall m :: j < m < |files| ==> files[m].path != files[j].path
  {
    var files := EntityFiles(titleCase, rootNamespace, inverse, tables);
    EntityFilesAt(titleCase, rootNamespace, inverse, tables, j);
    forall m | j < m < |files|
      ensures files[m].path != files[j].path
    {
      EntityFilesAt(titleCase, rootNamespace, inverse, tables, m);
      SuffixInjective(ToPascalCase(titleCase, tables[m].name), ToPascalCase(titleCase, tables[j].name), ".cs");
    }
  }

  /** The archived directory is the entity files and the shared files, overwritten by the specific repository files. */
  lemma ArchiveInStages(titleCase: CaseMapping, request: SchemaRequest, validTables: seq<Table>)
    ensures var entities := EntityFiles(titleCase, request.rootNamespace, InverseRelationships(validTables), validTables);
      WriteAll(map[], StagedPlan(titleCase, request, validTables)) ==
        WriteAll(WriteAll(WriteAll(map[], entities), SharedFiles(titleCase, request, validTables)),
                 RepositoryFiles(titleCase, request, validTables))
  {
    var entities := EntityFiles(titleCase, request.rootNamespace, InverseRelationships(validTables), validTables);
    var shared := SharedFiles(titleCase, request, validTables);
    WriteAllAppend(map[], entities + shared, RepositoryFiles(titleCase, request, validTables));
    WriteAllAppend(map[], entities, shared);
  }

  /** The j-th entity file survives the later entity files unless a later table has the same PascalCase name. */
  lemma {:induction false} EntityFileSurvives(titleCase: CaseMapping, rootNamespace: string, inverse: InverseMap, tables: seq<Table>, j: int)
    requires 0 <= j < |tables|
    requires forall m :: j < m < |tables| ==> ToPascalCase(titleCase, tables[m].name) != ToPascalCase(titleCase, tables[j].name)
    ensures var dir := WriteAll(map[], EntityFiles(titleCase, rootNamespace, inverse, tables));
      var f := EntityFile(titleCase, rootNamespace, inverse, tables[j]);
      f.path in dir && dir[f.path] == f.source
  {
    EntityFilesAt(titleCase, rootNamespace, inverse, tables, j);
    EntityPathsDistinctAfter(titleCase, rootNamespace, inverse, tables, j);
    WriteAllLastWrite(map[], EntityFiles(titleCase, rootNamespace, inverse, tables), j);
  }

  /** The files written after the entity files leave the entities directory as it was. */
  lemma {:induction false} LaterStagesKeepEntities(titleCase: CaseMapping, request: SchemaRequest, tables: seq<Table>, dir: map<Path, Generated>, p: Path)
    requires |p| == 2 && p[0] == "Entities"
    ensures var after := WriteAll(WriteAll(dir, SharedFiles(titleCase, request, tables)), RepositoryFiles(titleCase, request, tables));
      (p in after <==> p in dir) && (p in dir ==> after[p] == dir[p])
  {
    WriteAllUntouched(dir, SharedFiles(titleCase, request, tables), p);
    RepositoryFilesUnderRepositories(titleCase, request, tables);
    WriteAllUntouched(WriteAll(dir, SharedFiles(titleCase, request, tables)), RepositoryFiles(titleCase, request, tables), p);
  }

  /**
   * The entities directory keeps, for each PascalCase name, the entity file of
   * the last valid table with that name: a table whose name converts to the
   * same PascalCase name as a later table's loses its entity file. Paths are
   * compared exactly, with case.
   */
  lemma {:induction false} ArchivedEntityFile(titleCase: CaseMapping, request: SchemaRequest, validTables: seq<Table>, j: int)
    requires 0 <= j < |validTables|
    requires forall m :: j < m < |validTables| ==> ToPascalCase(titleCase, validTables[m].name) != ToPascalCase(titleCase, validTables[j].name)
    ensures var dir := WriteAll(map[], StagedPlan(titleCase, request, validTables));
      var path := ["Entities", ToPascalCase(titleCase, validTables[j].name) + ".cs"];
      && path in dir
      && dir[path] == EntityClass(validTables[j], request.rootNamespace, InverseRelationships(validTables))
  {
    var inverse := InverseRelationships(validTables);
    ArchiveInStages(titleCase, request, validTables);
    EntityFileSurvives(titleCase, request.rootNamespace, inverse, validTables, j);
    LaterStagesKeepEntities(titleCase, request, validTables, WriteAll(map[], EntityFiles(titleCase, request.rootNamespace, inverse, validTables)),
                            EntityFile(titleCase, request.rootNamespace, inverse, validTables[j]).path);
  }

  /** The i-th specific file, of the j-th table, survives the later ones unless a later table has the same PascalCase name. */
  lemma {:induction false} SpecificFileSurvives(titleCase: CaseMapping, request: SchemaRequest, tables: seq<Table>, dir: map<Path, Generated>, j: int, i: int)
    requires 0 <= j < |tables|
    requires forall m :: j < m < |tables| ==> ToPascalCase(titleCase, tables[m].name) != ToPascalCase(titleCase, tables[j].name)
    requires i == 2 * j || i == 2 * j + 1
    ensures var files := RepositoryFiles(titleCase, request, tables);
      files[i].path in WriteAll(dir, files) && WriteAll(dir, files)[files[i].path] == files[i].source
  {
    RepositoryPathsDistinctAfter(titleCase, request, tables, j, i);
    WriteAllLastWrite(dir, RepositoryFiles(titleCase, request, tables), i);
  }

  /**
   * The repositories directory keeps, for each PascalCase name, the specific
   * interface and class of the last valid table with that name. Paths are
   * compared exactly, with case.
   */
  lemma {:induction false} ArchivedRepositoryFiles(titleCase: CaseMapping, request: SchemaRequest, validTables: seq<Table>, j: int)
    requires 0 <= j < |validTables|
    requires forall m :: j < m < |validTables| ==> ToPascalCase(titleCase, validTables[m].name) != ToPascalCase(titleCase, validTables[j].name)
    ensures var dir := WriteAll(map[], StagedPlan(titleCase, request, validTables));
      var name := ToPascalCase(titleCase, validTables[j].name);
      var iface := ["Repositories", "Interfaces", "I" + name + "Repository.cs"];
      var impl := ["Repositories", "Implementations", name + "Repository.cs"];
      && iface in dir && dir[iface] == SpecificIRepository(validTables[j], request.rootNamespace)
      && impl in dir && dir[impl] == SpecificRepositoryClass(validTables[j], request.rootNamespace, request.dbContextName)
  {
    var entities := EntityFiles(titleCase, request.rootNamespace, InverseRelationships(validTables), validTables);
    var before := WriteAll(WriteAll(map[], entities), SharedFiles(titleCase, request, validTables));
    ArchiveInStages(titleCase, request, validTables);
    RepositoryFilesAt(titleCase, request, validTables, j);
    SpecificFilePaths(titleCase, request, validTables[j]);
    SpecificFileSurvives(titleCase, request, validTables, before, j, 2 * j);
    SpecificFileSurvives(titleCase, request, validTables, before, j, 2 * j + 1);
  }

  /** The i-th shared file holds its source once the shared files are written. */
  lemma {:induction false} SharedFileWritten(titleCase: CaseMapping, request: SchemaRequest, tables: seq<Table>, dir: map<Path, Generated>, i: int)
    requires 0 <= i < 3
    ensures var shared := SharedFiles(titleCase, request, tables);
      shared[i].path in WriteAll(dir, shared) && WriteAll(dir, shared)[shared[i].path] == shared[i].source
  {
    WriteAllLastWrite(dir, SharedFiles(titleCase, request, tables), i);
  }

  /**
   * With `<DbContextName>.cs` taken as one file name, the data context file is
   * never replaced: the archive holds the context over all valid tables.
   */
  lemma ArchivedDataContext(titleCase: CaseMapping, request: SchemaRequest, validTables: seq<Table>)
    ensures var dir := WriteAll(map[], StagedPlan(titleCase, request, validTables));
      var data := ["Data", request.dbContextName + ".cs"];
      data in dir && dir[data] == DbContextClass(validTables, request.rootNamespace)
  {
    var entities := EntityFiles(titleCase, request.rootNamespace, InverseRelationships(validTables), validTables);
    var shared := SharedFiles(titleCase, request, validTables);
    ArchiveInStages(titleCase, request, validTables);
    SharedFileWritten(titleCase, request, validTables, WriteAll(map[], entities), 0);
    RepositoryFilesUnderRepositories(titleCase, request, validTables);
    WriteAllUntouched(WriteAll(WriteAll(map[], entities), shared), RepositoryFiles(titleCase, request, validTables), shared[0].path);
  }

  /**
   * The two generic repository files survive when every valid table has a
   * non-empty PascalCase name; a table with an empty one writes its specific
   * files over them.
   */
  lemma {:induction false} ArchivedGenericRepositories(titleCase: CaseMapping, request: SchemaRequest, validTables: seq<Table>)
    requires forall m :: 0 <= m < |validTables| ==> ToPascalCase(titleCase, validTables[m].name) != ""
    ensures var dir := WriteAll(map[], StagedPlan(titleCase, request, validTables));
      var iface := InterfacePath("IRepository");
      var impl := ImplementationPath("Repository");
      && iface in dir && dir[iface] == GenericIRepository(request.rootNamespace)
      && impl in dir && dir[impl] == GenericRepositoryClass(request.rootNamespace, request.dbContextName)
  {
    var entities := EntityFiles(titleCase, request.rootNamespace, InverseRelationships(validTables), validTables);
    var shared := SharedFiles(titleCase, request, validTables);
    var before := WriteAll(WriteAll(map[], entities), shared);
    var files := RepositoryFiles(titleCase, request, validTables);
    ArchiveInStages(titleCase, request, validTables);
    SharedFileWritten(titleCase, request, validTables, WriteAll(map[], entities), 1);
    SharedFileWritten(titleCase, request, validTables, WriteAll(map[], entities), 2);
    RepositoryFilesAvoidGeneric(titleCase, request, validTables);
    WriteAllUntouched(before, files, shared[1].path);
    WriteAllUntouched(before, files, shared[2].path);
  }

  // ---------------------------------------------------------------------
  // The job's status history

  /**
   * How a job ends: it finished, a step up to and including the archive
   * failed, or removing the job's directory failed after completion.
   */
  datatype JobOutcome = Succeeded | FailedBeforeArchive(reason: string) | CleanupFailed(reason: string)

  function CompletedRecord(jobId: string): JobRecord {
    JobRecord(Completed, CompletedMessage, Some(ZipName(jobId)))
  }

  function ErrorRecord(reason: string): JobRecord {
    JobRecord(Error, ErrorMessage(reason), None)
  }

  /** The status writes of one background job, in order. */
  function JobWrites(jobId: string, outcome: JobOutcome): seq<Write> {
    [(jobId, JobRecord(Processing, ProcessingMessage, None))]
    + match outcome
      case Succeeded => [(jobId, CompletedRecord(jobId))]
      case FailedBeforeArchive(reason) => [(jobId, ErrorRecord(reason))]
      case CleanupFailed(reason) => [(jobId, CompletedRecord(jobId)), (jobId, ErrorRecord(reason))]
  }

  /** The record a job leaves in the registry. */
  function FinalRecord(jobId: string, outcome: JobOutcome): JobRecord {
    match outcome
    case Succeeded => CompletedRecord(jobId)
    case FailedBeforeArchive(reason) => ErrorRecord(reason)
    case CleanupFailed(reason) => ErrorRecord(reason)
  }

  /**
   * A job writes only its own id, Processing first; Completed always carries
   * the archive's name and is written only when the archive step succeeded;
   * Error never carries a download name; and the job's final record is
   * Completed exactly when every step succeeded.
   */
  lemma JobWritesSpec(jobId: string, outcome: JobOutcome)
    ensures var w := JobWrites(jobId, outcome);
      && 2 <= |w| <= 3
      && w[0].1.status == Processing
      && (forall i :: 0 <= i < |w| ==> w[i].0 == jobId)
      && (forall i :: 0 <= i < |w| && w[i].1.status == Completed ==>
            w[i].1.downloadFileName == Some(ZipName(jobId)) && !outcome.FailedBeforeArchive?)
      && (forall i :: 0 <= i < |w| && w[i].1.status == Error ==> w[i].1.downloadFileName.None?)
      && w[|w| - 1].1 == FinalRecord(jobId, outcome)
      && (FinalRecord(jobId, outcome).status == Completed <==> outcome.Succeeded?)
  {
  }

  /** Writes for other ids do not change what a query for `id` returns. */
  lemma {:induction false} LastWriteSkips(log: seq<Write>, more: seq<Write>, id: string)
    requires forall i :: 0 <= i < |more| ==> more[i].0 != id
    ensures LastWrite(log + more, id) == LastWrite(log, id)
  {
    if more != [] {
      var init := more[..|more| - 1];
      assert (log + more)[..|log + more| - 1] == log + init;
      LastWriteSkips(log, init, id);
    } else {
      assert log + more == log;
    }
  }

  /** After the job, a status query for its id returns the final record; every other id reads as before. */
  lemma JobWritesLookup(log: seq<Write>, jobId: string, outcome: JobOutcome, other: string)
    ensures LastWrite(log + JobWrites(jobId, outcome), jobId) == Some(FinalRecord(jobId, outcome))
    ensures other != jobId ==> LastWrite(log + JobWrites(jobId, outcome), other) == LastWrite(log, other)
  {
    var w := JobWrites(jobId, outcome);
    assert (log + w)[|log + w| - 1] == w[|w| - 1];
    if other != jobId {
      LastWriteSkips(log, w, other);
    }
  }

  /**
   * The background job of `GenerateSchema`: Processing, the directories, the
   * relationship analysis, the entity files, the context and generic
   * repository files, the specific repository pairs, the archive, Completed,
   * and the removal of the job's directory. A failing step ends the job with
   * Error and no download name.
   */
  method RunGenerationJob(manager: JobStatusManager, fs: HostFileSystem, titleCase: CaseMapping,
                          jobId: string, request: SchemaRequest, validTables: seq<Table>)
    returns (outcome: JobOutcome)
    requires manager.Valid()
    modifies manager, fs
    ensures manager.Valid()
    ensures manager.log == old(manager.log) + JobWrites(jobId, outcome)
    ensures ZipName(jobId) in old(fs.archives) ==> outcome.FailedBeforeArchive? && fs.archives == old(fs.archives)
    ensures outcome.FailedBeforeArchive? ==>
      AtMostPartialArchive(old(fs.archives), fs.archives, ZipName(jobId), WriteAll(map[], StagedPlan(titleCase, request, validTables)))
    ensures !outcome.FailedBeforeArchive? ==>
      fs.archives == old(fs.archives)[ZipName(jobId) := WriteAll(map[], StagedPlan(titleCase, request, validTables))]
    ensures outcome.Succeeded? ==> fs.jobDirectory == map[]
  {
    manager.SetJobStatus(jobId, Processing, ProcessingMessage, None);
    ghost var processing := (jobId, JobRecord(Processing, ProcessingMessage, None));
    var err := BuildArchive(fs, titleCase, request, validTables, ZipName(jobId));
    if err.Some? {
      outcome := FailedBeforeArchive(err.value);
      manager.SetJobStatus(jobId, Error, ErrorMessage(err.value), None);
      AppendTwo(old(manager.log), processing, (jobId, ErrorRecord(err.value)));
      return;
    }
    manager.SetJobStatus(jobId, Completed, CompletedMessage, Some(ZipName(jobId)));
    err := fs.DeleteJobDirectory();
    if err.Some? {
      outcome := CleanupFailed(err.value);
      manager.SetJobStatus(jobId, Error, ErrorMessage(err.value), None);
      AppendThree(old(manager.log), processing, (jobId, CompletedRecord(jobId)), (jobId, ErrorRecord(err.value)));
    } else {
      outcome := Succeeded;
      AppendTwo(old(manager.log), processing, (jobId, CompletedRecord(jobId)));
    }
  }

  /**
   * The steps of the job that touch the file system up to the archive: the
   * directories, the relationship analysis, the staged files in plan order,
   * and the archive of the job's directory. The first failing step ends them.
   */
  method BuildArchive(fs: HostFileSystem, titleCase: CaseMapping, request: SchemaRequest, validTables: seq<Table>, zipName: string)
    returns (err: Option<string>)
    modifies fs
    ensures zipName in old(fs.archives) ==> err.Some? && fs.archives == old(fs.archives)
    ensures err.Some? ==>
      AtMostPartialArchive(old(fs.archives), fs.archives, zipName, WriteAll(map[], StagedPlan(titleCase, request, validTables)))
    ensures err.None? ==> fs.archives == old(fs.archives)[zipName := WriteAll(map[], StagedPlan(titleCase, request, validTables))]
  {
    err := fs.CreateJobDirectories();
    if err.Some? {
      return;
    }
    var inverse := AnalyzeInverseRelationships(validTables);
    err := StageEntityFiles(fs, titleCase, request.rootNamespace, inverse, validTables);
    if err.Some? {
      return;
    }
    err := StageSharedFiles(fs, titleCase, request, validTables);
    if err.Some? {
      return;
    }
    err := StageRepositoryFiles(fs, titleCase, request, validTables);
    if err.Some? {
      return;
    }
    var entities := EntityFiles(titleCase, request.rootNamespace, inverse, validTables);
    var shared := SharedFiles(titleCase, request, validTables);
    WriteAllAppend(map[], entities, shared);
    WriteAllAppend(map[], entities + shared, RepositoryFiles(titleCase, request, validTables));
    err := fs.Archive(zipName);
  }

  lemma AppendTwo<T>(s: seq<T>, a: T, b: T)
    ensures s + [a] + [b] == s + ([a] + [b])
  {
  }

  lemma AppendThree<T>(s: seq<T>, a: T, b: T, c: T)
    ensures s + [a] + [b] + [c] == s + ([a] + ([b] + [c]))
  {
  }

  /** The job's first loop: one entity file per table, stopping at the first failing write. */
  method StageEntityFiles(fs: HostFileSystem, titleCase: CaseMapping, rootNamespace: string, inverse: InverseMap, tables: seq<Table>)
    returns (err: Option<string>)
    modifies fs
    ensures fs.archives == old(fs.archives)
    ensures err.None? ==> fs.jobDirectory == WriteAll(old(fs.jobDirectory), EntityFiles(titleCase, rootNamespace, inverse, tables))
  {
    ghost var start := fs.jobDirectory;
    ghost var written: seq<GeneratedFile> := [];
    var i := 0;
    while i < |tables|
      invariant 0 <= i <= |tables|
      invariant written == EntityFiles(titleCase, rootNamespace, inverse, tables[..i])
      invariant fs.jobDirectory == WriteAll(start, written)
      invariant fs.archives == old(fs.archives)
    {
      var file := EntityFile(titleCase, rootNamespace, inverse, tables[i]);
      err := fs.WriteFile(file);
      if err.Some? {
        return;
      }
      EntityFilesSnoc(titleCase, rootNamespace, inverse, tables, i);
      WriteAllStep(start, written, file);
      written := written + [file];
      i := i + 1;
    }
    assert tables[..i] == tables;
    err := None;
  }

  /** The data context file and the two generic repository files, in that order. */
  method StageSharedFiles(fs: HostFileSystem, titleCase: CaseMapping, request: SchemaRequest, validTables: seq<Table>)
    returns (err: Option<string>)
    modifies fs
    ensures fs.archives == old(fs.archives)
    ensures err.None? ==> fs.jobDirectory == WriteAll(old(fs.jobDirectory), SharedFiles(titleCase, request, validTables))
  {
    var shared := SharedFiles(titleCase, request, validTables);
    err := fs.WriteFile(shared[0]);
    if err.Some? {
      return;
    }
    WriteAllStep(old(fs.jobDirectory), [], shared[0]);
    err := fs.WriteFile(shared[1]);
    if err.Some? {
      return;
    }
    WriteAllStep(old(fs.jobDirectory), [shared[0]], shared[1]);
    err := fs.WriteFile(shared[2]);
    if err.Some? {
      return;
    }
    WriteAllStep(old(fs.jobDirectory), [shared[0], shared[1]], shared[2]);
    assert [shared[0], shared[1]] + [shared[2]] == shared;
  }

  /** The job's second loop: the specific interface and class for each table, stopping at the first failing write. */
  method StageRepositoryFiles(fs: HostFileSystem, titleCase: CaseMapping, request: SchemaRequest, tables: seq<Table>)
    returns (err: Option<string>)
    modifies fs
    ensures fs.archives == old(fs.archives)
    ensures err.None? ==> fs.jobDirectory == WriteAll(old(fs.jobDirectory), RepositoryFiles(titleCase, request, tables))
  {
    ghost var start := fs.jobDirectory;
    var i := 0;
    while i < |tables|
      invariant 0 <= i <= |tables|
      invariant fs.jobDirectory == WriteAll(start, RepositoryFiles(titleCase, request, tables[..i]))
      invariant fs.archives == old(fs.archives)
    {
      var before := RepositoryFiles(titleCase, request, tables[..i]);
      var iface := SpecificInterfaceFile(titleCase, request, tables[i]);
      var impl := SpecificClassFile(titleCase, request, tables[i]);
      err := fs.WriteFile(iface);
      if err.Some? {
        return;
      }
      WriteAllStep(start, before, iface);
      err := fs.WriteFile(impl);
      if err.Some? {
        return;
      }
      WriteAllStep(start, before + [iface], impl);
      assert tables[..i + 1][..i] == tables[..i];
      assert RepositoryFiles(titleCase, request, tables[..i + 1]) == before + [iface] + [impl];
      i := i + 1;
    }
    assert tables[..i] == tables;
    err := None;
  }

  // ---------------------------------------------------------------------
  // The actions

  /** What the form post answers: the form again, or the JSON acknowledgement. */
  datatype SchemaResponse = FormView | Accepted(success: bool, jobId: string, message: string)

  /**
   * `GenerateSchema`, up to the start of the background job: a bound form
   * registers the new job as Queued, keeps the tables with non-blank names and
   * acknowledges with success, whatever the tables are. The job id is the
   * fresh GUID the host draws.
   */
  method GenerateSchema(manager: JobStatusManager, request: SchemaRequest, modelStateIsValid: bool, jobId: string)
    returns (response: SchemaResponse, validTables: seq<Table>)
    requires manager.Valid()
    modifies manager
    ensures manager.Valid()
    ensures !modelStateIsValid ==> response == FormView && manager.log == old(manager.log) && validTables == []
    ensures modelStateIsValid ==>
      && manager.log == old(manager.log) + [(jobId, JobRecord(Queued, QueuedMessage, None))]
      && validTables == ValidTables(request.tables)
      && response == Accepted(true, jobId, AcceptedMessage)
  {
    if !modelStateIsValid {
      return FormView, [];
    }
    manager.SetJobStatus(jobId, Queued, QueuedMessage, None);
    validTables := ValidTables(request.tables);
    response := Accepted(true, jobId, AcceptedMessage);
  }

  /** What the status query answers. */
  datatype StatusResponse =
    | NotFoundResult(status: string, message: string)
    | StatusResult(status: string, message: string, downloadFileName: Option<string>)

  /** `GetJobStatus` (the action): NotFound exactly for an id never registered, otherwise the registry's record. */
  method GetJobStatusAction(manager: JobStatusManager, jobId: string) returns (r: StatusResponse)
    requires manager.Valid()
    ensures r.NotFoundResult? <==> jobId !in manager.jobs
    ensures r.NotFoundResult? ==> r == NotFoundResult(NotFoundName, JobNotFoundMessage)
    ensures r.StatusResult? ==>
      var rec := manager.jobs[jobId];
      r == StatusResult(StatusName(rec.status), rec.message, rec.downloadFileName)
  {
    var statusData := manager.GetJobStatus(jobId);
    if statusData.None? {
      return NotFoundResult(NotFoundName, JobNotFoundMessage);
    }
    var rec := statusData.value;
    r := StatusResult(StatusName(rec.status), rec.message, rec.downloadFileName);
  }

  /** What the download answers. */
  datatype DownloadResponse =
    | FileNotFound(message: string)
    | ZipDownload(fileName: string, contentType: string, archive: map<Path, Generated>)

  /**
   * `DownloadGeneratedCode`: any name present in the temporary directory is
   * served as a zip, whatever it looks like; any other name is NotFound.
   */
  method DownloadGeneratedCode(fs: HostFileSystem, fileName: string) returns (r: DownloadResponse)
    ensures r.FileNotFound? <==> fileName !in fs.archives
    ensures r.FileNotFound? ==> r.message == "File '" + fileName + "' không tìm thấy hoặc đã bị xóa."
    ensures r.ZipDownload? ==> r == ZipDownload(fileName, "application/zip", fs.archives[fileName])
  {
    if fileName !in fs.archives {
      return FileNotFound("File '" + fileName + "' không tìm thấy hoặc đã bị xóa.");
    }
    r := ZipDownload(fileName, "application/zip", fs.archives[fileName]);
  }
}
