# MvcDynamicCodeGenerator — a Dafny model of the schema-to-source compiler and its job controller

MvcDynamicCodeGenerator is an ASP.NET Core MVC application. A user describes a
database schema in a form: tables, and for each table its typed properties with
key, nullability, foreign-key and validation flags. The application turns the
schema into C# source files and packs them into a zip archive: one entity class
per table, an Entity Framework Core `DbContext`, a generic repository pair, and
a specific repository pair per table. The archive is built by a background job.
The client polls the job's status and downloads the archive when the job
completes.

This project models two parts of the application in Dafny and proves properties
of them.

* **The compiler** (`Services/CodeGeneratorService.cs`):
  * the identifier helpers `ToPascalCase`, `Pluralize` and `GetCSharpDataType`;
  * the relationship resolver `AnalyzeInverseRelationships`;
  * the six text generators.

  Each generator is a function that returns the lines of the generated file,
  one element per `AppendLine`. The relationship resolver fills a dictionary
  inside two nested loops, so it is a method with loop invariants. It is proved
  equal to a specification function. That function is in turn characterised
  against an independent description: the flat list of (principal, foreign key)
  pairs.
* **The controller** (`Controllers/GeneratorController.cs`):
  * the `JobStatusManager` registry, a class holding a map;
  * the form post, which filters the valid tables and registers the job;
  * the background job, a method over a host file system whose every step may
  fail;
  * the status query and the download.

  The job's file writes are described by a plan of (path, generator call)
  pairs. The proofs show what the archive holds at each path.

Modules, one per file:

| file | module | what it holds |
|---|---|---|
| strings.dfy | `Strings` | `Option`, blank/empty tests, ASCII lower-casing, decimal rendering of integers, `Join` |
| schema.dfy | `Schema` | `Property`, `Table`, the valid-table filter |
| naming.dfy | `Naming` | `ToPascalCase`, `Pluralize`, `GetCSharpDataType` |
| relationships.dfy | `Relationships` | the inverse-navigation map and `AnalyzeInverseRelationships` |
| entity_generator.dfy | `EntityGenerator` | `GenerateEntityClass` |
| context_generator.dfy | `ContextGenerator` | `GenerateDbContextClass` |
| repository_generator.dfy | `RepositoryGenerator` | the four repository generators |
| job_status.dfy | `JobStatus` | `JobStatusManager` |
| generator_controller.dfy | `GeneratorController` | the actions, the background job, the host file system |

## Model

| member | source | states |
|---|---|---|
| Naming.ToPascalCaseSpec | Services/CodeGeneratorService.cs:409-413 | The empty name comes back unchanged. Any result holds no space. It holds no underscore whenever title-casing introduces none. |
| Naming.ToPascalCaseOrNull | Services/CodeGeneratorService.cs:409-411 | A null name stays null. A non-null name is converted. |
| Naming.ReplaceChar | Services/CodeGeneratorService.cs:412 | `Replace("_", " ")` keeps the length and replaces exactly the matching characters. |
| Naming.RemoveChar | Services/CodeGeneratorService.cs:412 | `Replace(" ", "")` removes every occurrence of the character. It keeps every other character, in order (the result is a subsequence). |
| Naming.RemoveCharCount | Services/CodeGeneratorService.cs:412 | The removed character occurs zero times in the result. Every other character occurs exactly as often as in the input. |
| Naming.Pluralize | Services/CodeGeneratorService.cs:415-434 | Empty stays empty. Otherwise the result is one or two characters longer, ends in 's', and keeps all but the last character of the name. |
| Naming.PluralizeTwice | Services/CodeGeneratorService.cs:420-427 | Pluralising a plural appends "es" again: the heuristic is not idempotent. |
| Naming.PluralizeExamples | Services/CodeGeneratorService.cs:415-434 | "Box" gives "Boxes", "Category" gives "Categories", and "Products" gives "Productses". |
| Naming.TypeOfLoweredTokenRange | Services/CodeGeneratorService.cs:387-400 | Each of the ten known lower-cased tokens maps to a fixed type name other than "object". Every other token maps to "object". |
| Naming.BaseCSharpTypeRange | Services/CodeGeneratorService.cs:387-400 | The mapped type is one of the eleven names. It is "object" for a token the switch does not know, compared after lower-casing. |
| Naming.GetCSharpDataTypeSpec | Services/CodeGeneratorService.cs:385-407 | The result starts with the mapped type. The result is the mapped type plus "?" — and ends in "?" — exactly when the property is nullable and the type is neither "string" nor "byte[]". Otherwise the result is the mapped type. |
| Naming.GetCSharpDataTypeUnknown | Services/CodeGeneratorService.cs:399-405 | An unknown token gives "object", or "object?" when nullable. |
| Naming.GetCSharpDataTypeIgnoresCase | Services/CodeGeneratorService.cs:387 | Tokens equal up to case give the same type. |
| Schema.ValidTables | Controllers/GeneratorController.cs:119 | Keeps exactly the tables with non-blank names, in their original order (a subsequence). |
| Schema.ValidTablesCount | Controllers/GeneratorController.cs:119 | A table with a non-blank name is kept as many times as it is listed. A blank-named table is dropped every time. |
| Relationships.AnalyzeInverseRelationships | Services/CodeGeneratorService.cs:25-51 | The nested loops fill the dictionary to exactly the map `InverseRelationships` describes. |
| Relationships.InverseRelationshipsSpec | Services/CodeGeneratorService.cs:25-51 | Every key holds a non-empty list. The list under a name is exactly the entries of the foreign keys that spell that name, in table-then-property order, with blank-named tables skipped. A name no foreign key uses is absent. |
| Relationships.InverseRelationshipsTotal | Services/CodeGeneratorService.cs:33-47 | The map holds as many entries in all as there are contributing foreign keys in non-blank tables. |
| Relationships.RecordedUnderRawName | Services/CodeGeneratorService.cs:37-46 | A contributing foreign key is recorded under the raw principal name it spells. |
| Relationships.KeysAreRawReferences | Services/CodeGeneratorService.cs:37-46 | Every key of the map is a raw principal name spelled by some contributing foreign key. |
| EntityGenerator.Annotations | Services/CodeGeneratorService.cs:76-85 | The annotations of a property are exactly those its flags call for, at most ten of them. |
| EntityGenerator.AnnotationTextInjective | Services/CodeGeneratorService.cs:76-85 | No two different annotations are written as the same line. |
| EntityGenerator.PropertyBlockAnnotations | Services/CodeGeneratorService.cs:76-101 | An annotation line appears in a property's block exactly when the property's flags call for that annotation. No scalar or navigation line reads as one. |
| EntityGenerator.PropertyBlockKeyAndRequired | Services/CodeGeneratorService.cs:76-78 | `[Key]` appears exactly for primary keys. `[Required]` appears exactly for non-nullable, non-key properties whose token is exactly "string". |
| EntityGenerator.EntityScalarMembers | Services/CodeGeneratorService.cs:53-121 | The scalar declarations of the generated class are exactly one `public <type> <Name> { get; set; }` per property, in declared order. |
| EntityGenerator.NavigationLines | Services/CodeGeneratorService.cs:89-101 | A navigation member appears only for a foreign key with both names set. `[ForeignKey]` is omitted exactly when the PascalCase name is the principal's PascalCase name + "Id". |
| EntityGenerator.EmittedInverses | Services/CodeGeneratorService.cs:106-111 | An inverse navigation gets a collection exactly when its plural name collides with no property name and no navigation name of the table. |
| EntityGenerator.EmittedInversesCount | Services/CodeGeneratorService.cs:106-111 | A non-colliding inverse navigation is emitted as many times as it is listed. A colliding one is never emitted. |
| EntityGenerator.EmittedInOrder | Services/CodeGeneratorService.cs:106-111 | Two non-colliding inverse navigations keep their relative map order among the emitted ones. |
| EntityGenerator.InverseCollectionLines | Services/CodeGeneratorService.cs:104-116 | Each emitted inverse gets a blank line and its collection member, in map order. A skipped one leaves no trace. |
| EntityGenerator.AllEmittedWithoutCollision | Services/CodeGeneratorService.cs:106-115 | Without collisions, every inverse navigation is emitted. |
| EntityGenerator.DuplicateInverseCollections | Services/CodeGeneratorService.cs:106-115 | Two inverse entries of one dependent table under the same principal, neither of them colliding, put the same collection member into the principal's class twice. |
| EntityGenerator.EntityDependsOnRawEntryOnly | Services/CodeGeneratorService.cs:104-116 | The class depends on the inverse map only through the list stored under the table's raw name. |
| EntityGenerator.EntityInverseLookupIsRaw | Services/CodeGeneratorService.cs:53-121 | The class has the header, the property blocks, two lines per emitted entry of the list under the raw name, and the footer. A table whose raw name is not a key gets the class of an empty map, even when its PascalCase name is a key. |
| ContextGenerator.DbSetLinesOfValidTables | Services/CodeGeneratorService.cs:140-146 | There is exactly one `DbSet` line per valid table, named with the plural of its PascalCase name, in table order. |
| ContextGenerator.DbContextLayout | Services/CodeGeneratorService.cs:123-218 | The file is the fixed `ApplicationDbContext` opening, the `DbSet` lines of the valid tables, the `OnModelCreating` opening, the configurations over the resolved inverse map, and the closing braces. |
| ContextGenerator.ConfigurationsOfValidTables | Services/CodeGeneratorService.cs:156-211 | The configurations are the key and relationship configurations of the valid tables, each once, in table order. |
| ContextGenerator.PrimaryKeys | Services/CodeGeneratorService.cs:162 | The primary keys are exactly the key-flagged properties. |
| ContextGenerator.PrimaryKeysAppend | Services/CodeGeneratorService.cs:162 | The filter keeps the declared order. |
| ContextGenerator.PrimaryKeysIdempotent | Services/CodeGeneratorService.cs:162 | Filtering the keys a second time changes nothing. |
| ContextGenerator.KeyLinesDependOnKeysOnly | Services/CodeGeneratorService.cs:162-174 | The `HasKey` configuration depends on the properties only through their keys. There is a `HasKey` line exactly when some property is a primary key. |
| ContextGenerator.KeyAccessorsInOrder | Services/CodeGeneratorService.cs:162-172 | The composite key's accessors follow the declared order. Each key contributes `e.<Pascal>` once, and every other property contributes nothing. |
| ContextGenerator.NavigationPropertiesCount | Services/CodeGeneratorService.cs:177-179 | A foreign key with both its navigation and its principal name set is configured as many times as it is declared. Every other property is skipped. |
| ContextGenerator.FirstMatch | Services/CodeGeneratorService.cs:190-192 | `FirstOrDefault` is null exactly when no entry matches the dependent entity and foreign key. Otherwise it is a matching entry of the list. |
| ContextGenerator.FirstMatchIsFirst | Services/CodeGeneratorService.cs:190-192 | The entry returned is the earliest match. |
| ContextGenerator.WithManySpec | Services/CodeGeneratorService.cs:188-207 | The list is looked up under the principal's PascalCase name. The step is `WithMany(p => p.<plural of the entity>)` when that list holds an entry of this entity and foreign key, and `WithMany()` otherwise. |
| ContextGenerator.ForeignKeyBlock | Services/CodeGeneratorService.cs:177-211 | Configuration block k belongs to the k-th foreign key with navigation, in declared order. |
| ContextGenerator.ForeignKeyConfigurationShape | Services/CodeGeneratorService.cs:185-209 | Every configured foreign key has four lines. They are `Entity<E>()`, `HasOne` with its navigation, one of the two `WithMany` forms, and `HasForeignKey` with its PascalCase name. |
| ContextGenerator.StableNameFindsCollection | Services/CodeGeneratorService.cs:177-198 | When PascalCase leaves the principal name unchanged, a foreign key of a valid table finds its own entry and gets its collection. |
| ContextGenerator.RenamedPrincipalGetsBareWithMany | Services/CodeGeneratorService.cs:188-207 | When no foreign key spells the PascalCase principal name, the lookup misses and the relationship gets a bare `WithMany()`. |
| RepositoryGenerator.GenericIRepositoryParameters | Services/CodeGeneratorService.cs:221-243 | The generic interface depends only on the root namespace, and only in its first line. That line determines the namespace. |
| RepositoryGenerator.GenericRepositoryParameters | Services/CodeGeneratorService.cs:248-320 | The generic class depends only on its two parameters. The namespace affects only the namespace and two using lines. The context type name affects only the field and constructor lines, and each of those determines it. |
| RepositoryGenerator.RepositoryNamesInjective | Services/CodeGeneratorService.cs:329-355 | Different entities get different `I<Entity>Repository` and `<Entity>Repository` names. |
| RepositoryGenerator.InterfaceDeclarationInjective | Services/CodeGeneratorService.cs:339 | Different entities give different `I<Entity>Repository : IRepository<Entity>` declarations. |
| RepositoryGenerator.ClassDeclarationInjective | Services/CodeGeneratorService.cs:368 | Different entities give different `<Entity>Repository : Repository<Entity>, I<Entity>Repository` declarations. |
| RepositoryGenerator.SpecificRepositoryParameters | Services/CodeGeneratorService.cs:326-382 | Both specific files depend on the table only through its PascalCase name. The name appears only in the interface declaration, the class declaration and the constructor. Each declaration determines the name. |
| JobStatus.StatusNameInjective | Controllers/GeneratorController.cs:252-255 | The four status constants are four distinct names. |
| JobStatus.StatusName | Controllers/GeneratorController.cs:252-256 | No status is reported under the name "NotFound" used for unknown ids. |
| JobStatus.ReplayIsLastWrite | Controllers/GeneratorController.cs:258-279 | Looking an id up in the registry gives the last record written for it, and null for an id never written. |
| JobStatus.ReplayKeys | Controllers/GeneratorController.cs:258-267 | There is no removal: the registry's ids are exactly the ids ever written. |
| JobStatus.ReplayGrows | Controllers/GeneratorController.cs:258-267 | Later writes never remove an id. |
| JobStatus.JobStatusManager.SetJobStatus | Controllers/GeneratorController.cs:261-267 | Overwrites the record of `jobId`. Every other id keeps its record, and the key set gains `jobId`. |
| JobStatus.JobStatusManager.GetJobStatus | Controllers/GeneratorController.cs:269-279 | Returns the last record set for the id, or null for an id never set. |
| GeneratorController.GenerateSchema | Controllers/GeneratorController.cs:109-119 | An invalid form is shown again and nothing is registered. A valid form registers the job as Queued, keeps exactly the valid tables, and answers success, for any list of tables. |
| GeneratorController.JobWritesSpec | Controllers/GeneratorController.cs:121-211 | The job writes only its own id, Processing first. Completed always carries `GeneratedCode_<id>.zip` and comes only after a successful archive. Error never carries a download name. The final record is Completed exactly when every step succeeded. |
| GeneratorController.JobWritesLookup | Controllers/GeneratorController.cs:121-211 | After the job, a status query for its id returns the final record. Other ids read as before. |
| GeneratorController.RunGenerationJob | Controllers/GeneratorController.cs:121-211 | The job's registry writes are exactly `JobWrites` for its outcome. A job whose archive name already exists fails and changes no archive. Any other failure up to the archive changes no archive, except that it may leave a partial archive under the job's name holding only files of the staged plan. Otherwise the archive named after the job holds exactly the staged plan, written in order. On success the job directory is removed. |
| GeneratorController.BuildArchive | Controllers/GeneratorController.cs:130-199 | An existing archive of the same name makes it fail and changes no archive. Any other failing step changes no archive, except that it may leave a partial archive under the name holding only files of the plan. Otherwise the archive holds the plan's files written in order. |
| GeneratorController.HostFileSystem.Archive | Controllers/GeneratorController.cs:199 | Fails, changing nothing, when an archive of that name already exists. Otherwise it archives the job's directory under the name. If it fails part-way, it may leave a partial archive holding only files of the directory, with their contents, and changes no other archive. |
| GeneratorController.StageEntityFiles | Controllers/GeneratorController.cs:151-157 | The first loop writes the entity files of the valid tables in order, unless a write fails. |
| GeneratorController.StageSharedFiles | Controllers/GeneratorController.cs:160-175 | The data context, then the generic interface, then the generic class. |
| GeneratorController.StageRepositoryFiles | Controllers/GeneratorController.cs:178-191 | The second loop writes each table's interface then class, in table order. |
| GeneratorController.StagedPlanShared | Controllers/GeneratorController.cs:151-175 | For n tables the plan holds 3n + 3 files. The entity files come first, then `Data/<DbContextName>.cs` with the context, `Repositories/Interfaces/IRepository.cs` and `Repositories/Implementations/Repository.cs`. |
| GeneratorController.StagedPlanEntity | Controllers/GeneratorController.cs:151-156 | File k of the plan is `Entities/<Pascal>.cs` holding table k's entity class. |
| GeneratorController.StagedPlanRepositories | Controllers/GeneratorController.cs:178-190 | Table k's interface and class follow the shared files, interface first. |
| GeneratorController.SpecificFilePaths | Controllers/GeneratorController.cs:180-188 | The specific files go to `Repositories/Interfaces/I<Pascal>Repository.cs` and `Repositories/Implementations/<Pascal>Repository.cs`. |
| GeneratorController.SpecificFilesNamedAfterDeclarations | Controllers/GeneratorController.cs:180-189 | Each specific file is named after the interface or class it declares. |
| GeneratorController.ArchivedEntityFile | Controllers/GeneratorController.cs:151-199 | With paths compared exactly, the archive holds each table's entity class under `Entities/<Pascal>.cs`, unless a later table has the same PascalCase name. |
| GeneratorController.ArchivedRepositoryFiles | Controllers/GeneratorController.cs:178-199 | With paths compared exactly, the archive holds each table's specific interface and class under their paths, unless a later table has the same PascalCase name. |
| GeneratorController.ArchivedDataContext | Controllers/GeneratorController.cs:160-199 | With `<DbContextName>.cs` taken as one file name and paths compared exactly, the archive always holds the context class under `Data/<DbContextName>.cs`. |
| GeneratorController.ArchivedGenericRepositories | Controllers/GeneratorController.cs:166-199 | The archive holds the generic interface and class under their fixed names, unless a table's PascalCase name is empty. |
| GeneratorController.ZipNameInjective | Controllers/GeneratorController.cs:197 | Different jobs archive under different names. |
| GeneratorController.GetJobStatusAction | Controllers/GeneratorController.cs:219-232 | NotFound, with status "NotFound", exactly for an id the registry does not hold. Otherwise the registry's status name, message and download name. |
| GeneratorController.DownloadGeneratedCode | Controllers/GeneratorController.cs:236-247 | NotFound exactly when no file of that name exists. Otherwise that file, served as `application/zip` under the requested name, whatever the name looks like. |

## Left out

- I/O and the host are not modelled: real temporary directories, `Path.Combine`, `Path.GetTempPath`, zip encoding, the download `FileStream`, logging, `Task.Run`, `Task.Yield` and `Task.Delay`. The host file system is a class holding the job's directory as a map from relative paths to `Generated` values, each naming the generator call that produces the file's text. It holds the archives as a map from file names to such directories. Each step may fail nondeterministically, with a message the model does not fix.
- The new job's GUID is a parameter of `GenerateSchema`. A fresh job directory is modelled as empty.
- Concurrency and the `lock` in `JobStatusManager` are not modelled. The lock only serialises access, so the registry is a sequential class. Jobs running at the same time are not modelled.
- MVC plumbing is not modelled: model binding and the `ModelState` check (a boolean parameter), view and JSON result objects, anti-forgery, the sample schema built in `Index`, and `Program.cs`.
- Options of the form that no generator reads are not modelled.
- Naming.ToPascalCase: `TextInfo.ToTitleCase` depends on the culture, so it is a parameter. The no-underscore property holds only for a mapping that introduces no underscore (`KeepsUnderscoresOut`).
- Naming.GetCSharpDataTypeIgnoresCase: `ToLower` uses the current culture, but the model fixes culture-invariant lower-casing of ASCII letters, and this lemma holds only for that. Under a Turkish or Azeri culture the source lowers "INT" to "ınt" and maps it to "object", while "int" still gives "int". So tokens holding a capital 'I' map differently there, and letters outside ASCII are not lowered at all in the model.
- Naming.GetCSharpDataType: the same fixed lower-casing decides which of the ten known tokens a data type matches.
- Line separators are not modelled. Each generator returns its lines, one element per `AppendLine`. The four-line foreign-key block, which the source builds with embedded newlines, is four elements.
- RepositoryGenerator.GenericRepositoryParameters: the member bodies of the two generic templates are fixed text that mentions no parameter. They are uninterpreted constants, so their literal text is not part of this model.
- GeneratorController.RunGenerationJob: a file's content is named by the generator call that produces it (`Generated`, with `Text` giving its lines), not stored as text.
- Exceptions thrown inside the generators are not modelled. The generators here are total.
- Path normalisation and rooted file names in `DownloadGeneratedCode` are not modelled.
- GeneratorController.ArchivedDataContext: the model's file system compares paths exactly, element by element and with case. It takes `<DbContextName>.cs` as a single file name inside `Data`. `Path.Combine` resolves separators, `..` and rooted names, and the form requires only a non-empty `DbContextName`. So in the source the context file can land outside the job directory, and so outside the archive. It can also overwrite another generated file, or be overwritten by one: for example, "../Repositories/Interfaces/IProductRepository" is overwritten by a later write. "Always" holds only for a plain name (no separator, no `..`, not rooted).
- GeneratorController.ArchivedEntityFile: this holds in the source only for a plain `DbContextName`. For example, "../Entities/Product" overwrites `Entities/Product.cs`. It also assumes a case-sensitive file system. On a case-insensitive one (the Windows and macOS defaults), tables whose PascalCase names are equal up to case, such as "ABC" and "Abc", share one file, and the later table's class survives.
- GeneratorController.ArchivedRepositoryFiles: the same limits apply. A `DbContextName` that climbs into `Repositories` can overwrite or be overwritten by a specific repository file, and on a case-insensitive file system the condition is "a later table whose PascalCase name is equal up to case".

Where the code and the documented design differ, the model follows the code:

- The model also admits an empty table list. The program's form does not produce one: when no tables are posted, the view model's constructor supplies a default `Products` table (Models/SchemaGeneratorViewModel.cs:80-93), so the job always has at least one table. The request is taken as bound, and this default is not part of this model.
- A failed archive step can leave a partial `GeneratedCode_<id>.zip` behind. The job's status then reads Error, but the download action checks only that the file exists, so it serves the partial archive.
- GeneratorController.GenerateSchema: the form's validation result is an unconstrained parameter, so the model also admits forms the binder rejects. For example, a table name that is blank or breaks `^[a-zA-Z_][a-zA-Z0-9_]*$` fails validation in the source and gets the form back, so the blank-name filter never drops a table there.
- A failure to delete the job directory after Completed overwrites the status with Error, although the archive exists.
- A skipped inverse collection leaves no placeholder comment.
- The download action checks only that the file exists.
- The context class is always `ApplicationDbContext`, while the context file and the repositories use the configured context name.
- Two valid tables with the same PascalCase name overwrite each other's files. The archive lemmas state what survives in the model's exact-path file system.
