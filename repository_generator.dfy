/**
 * The four repository generators: the generic `IRepository<TEntity>` and
 * `Repository<TEntity>`, and per table `I<Entity>Repository` and
 * `<Entity>Repository`. The member bodies of the generic templates are fixed
 * text that mentions no parameter; they are constants whose text is not part
 * of this model.
 */
module RepositoryGenerator {
  import opened Naming
  import opened Schema

  /** The members of `IRepository<TEntity>`, from the opening brace to the end of the file. */
  const GenericInterfaceMembers: seq<string>

  /** The members of `Repository<TEntity>` after the constructor, to the end of the file. */
  const GenericRepositoryMembers: seq<string>

  /** `GenerateGenericIRepository`. */
  function GenerateGenericIRepository(rootNamespace: string): seq<string> {
    [ "namespace " + rootNamespace + ".Repositories.Interfaces",
      "{",
      "    using System.Linq.Expressions;",
      "    using System.Collections.Generic;",
      "    using System.Threading.Tasks;",
      "",
      "    public interface IRepository<TEntity>",
      "        where TEntity : class" ]
    + GenericInterfaceMembers
  }

  function ContextFieldLine(dbContextName: string): string {
    "        protected readonly " + dbContextName + " _context;"
  }

  function GenericConstructorLine(dbContextName: string): string {
    "        public Repository(" + dbContextName + " context)"
  }

  /** `GenerateGenericRepositoryClass`. */
  function GenerateGenericRepositoryClass(rootNamespace: string, dbContextName: string): seq<string> {
    [ "namespace " + rootNamespace + ".Repositories.Implementations",
      "{",
      "    using Microsoft.EntityFrameworkCore;",
      "    using System.Linq.Expressions;",
      "    using System.Collections.Generic;",
      "    using System.Linq;",
      "    using System.Threading.Tasks;",
      "    using " + rootNamespace + ".Data;",
      "    using " + rootNamespace + ".Repositories.Interfaces;",
      "",
      "    public class Repository<TEntity> : IRepository<TEntity>",
      "        where TEntity : class",
      "    {",
      ContextFieldLine(dbContextName),
      "",
      GenericConstructorLine(dbContextName),
      "        {",
      "            _context = context;",
      "        }" ]
    + GenericRepositoryMembers
  }

  /** The generic interface differs between two namespaces only in its first line. */
  lemma GenericIRepositoryParameters(ns1: string, ns2: string)
    ensures var a := GenerateGenericIRepository(ns1);
      var b := GenerateGenericIRepository(ns2);
      && |a| == |b|
      && (forall i :: 1 <= i < |a| ==> a[i] == b[i])
      && (a[0] == b[0] <==> ns1 == ns2)
  {
    var a := GenerateGenericIRepository(ns1);
    var b := GenerateGenericIRepository(ns2);
    var prefix := "namespace ";
    var suffix := ".Repositories.Interfaces";
    if a[0] == b[0] {
      assert ns1 == a[0][|prefix| .. |a[0]| - |suffix|] == ns2;
    }
  }

  /** The lines of the generic repository that mention a parameter: the namespace, two usings, the field and the constructor. */
  const GenericRepositoryParameterLines: set<int> := {0, 7, 8, 13, 15}

  /**
   * The generic repository depends only on its two parameters, and only at the
   * namespace and using lines (the root namespace) and at the field and
   * constructor lines (the context's type name).
   */
  lemma GenericRepositoryParameters(ns1: string, ctx1: string, ns2: string, ctx2: string)
    ensures var a := GenerateGenericRepositoryClass(ns1, ctx1);
      var b := GenerateGenericRepositoryClass(ns2, ctx2);
      && |a| == |b|
      && (forall i :: 0 <= i < |a| && i !in GenericRepositoryParameterLines ==> a[i] == b[i])
      && (ns1 == ns2 ==> a[0] == b[0] && a[7] == b[7] && a[8] == b[8])
      && (a[13] == b[13] <==> ctx1 == ctx2)
      && (a[15] == b[15] <==> ctx1 == ctx2)
  {
    ContextFieldLineInjective(ctx1, ctx2);
    GenericConstructorLineInjective(ctx1, ctx2);
  }

  lemma ContextFieldLineInjective(ctx1: string, ctx2: string)
    ensures ContextFieldLine(ctx1) == ContextFieldLine(ctx2) <==> ctx1 == ctx2
  {
    var prefix := "        protected readonly ";
    var suffix := " _context;";
    var line := ContextFieldLine(ctx1);
    if line == ContextFieldLine(ctx2) {
      assert ctx1 == line[|prefix| .. |line| - |suffix|] == ctx2;
    }
  }

  lemma GenericConstructorLineInjective(ctx1: string, ctx2: string)
    ensures GenericConstructorLine(ctx1) == GenericConstructorLine(ctx2) <==> ctx1 == ctx2
  {
    var prefix := "        public Repository(";
    var suffix := " context)";
    var line := GenericConstructorLine(ctx1);
    if line == GenericConstructorLine(ctx2) {
      assert ctx1 == line[|prefix| .. |line| - |suffix|] == ctx2;
    }
  }

  /** `I<Entity>Repository`. */
  function InterfaceName(entityName: string): string {
    "I" + entityName + "Repository"
  }

  /** `<Entity>Repository`. */
  function RepositoryName(entityName: string): string {
    entityName + "Repository"
  }

  /** Different entities get different interface names and different class names. */
  lemma RepositoryNamesInjective(a: string, b: string)
    ensures InterfaceName(a) == InterfaceName(b) <==> a == b
    ensures RepositoryName(a) == RepositoryName(b) <==> a == b
  {
    if InterfaceName(a) == InterfaceName(b) {
      assert a == InterfaceName(a)[1 .. |InterfaceName(a)| - 10] == b;
    }
    if RepositoryName(a) == RepositoryName(b) {
      assert a == RepositoryName(a)[.. |RepositoryName(a)| - 10] == b;
    }
  }

  function InterfaceDeclaration(entityName: string): string {
    "    public interface " + InterfaceName(entityName) + " : IRepository<" + entityName + ">"
  }

  function ClassDeclaration(entityName: string): string {
    "    public class " + RepositoryName(entityName) + " : Repository<" + entityName + ">, " + InterfaceName(entityName)
  }

  function SpecificConstructorLine(entityName: string, dbContextName: string): string {
    "        public " + RepositoryName(entityName) + "(" + dbContextName + " context) : base(context)"
  }

  /** `GenerateSpecificIRepository`: an empty interface extending `IRepository<Entity>`. */
  function GenerateSpecificIRepository(titleCase: CaseMapping, table: Table, rootNamespace: string): seq<string> {
    var entityName := ToPascalCase(titleCase, table.name);
    [ "namespace " + rootNamespace + ".Repositories.Interfaces",
      "{",
      "    using " + rootNamespace + ".Entities;",
      "    using System.Collections.Generic;",
      "    using System.Threading.Tasks;",
      "",
      InterfaceDeclaration(entityName),
      "    {",
      "    }",
      "}" ]
  }

  /** `GenerateSpecificRepositoryClass`: a class extending `Repository<Entity>` and implementing the specific interface. */
  function GenerateSpecificRepositoryClass(titleCase: CaseMapping, table: Table, rootNamespace: string, dbContextName: string): seq<string> {
    var entityName := ToPascalCase(titleCase, table.name);
    [ "namespace " + rootNamespace + ".Repositories.Implementations",
      "{",
      "    using Microsoft.EntityFrameworkCore;",
      "    using System.Linq;",
      "    using System.Collections.Generic;",
      "    using System.Threading.Tasks;",
      "    using " + rootNamespace + ".Data;",
      "    using " + rootNamespace + ".Entities;",
      "    using " + rootNamespace + ".Repositories.Interfaces;",
      "",
      ClassDeclaration(entityName),
      "    {",
      SpecificConstructorLine(entityName, dbContextName),
      "        {",
      "        }",
      "    }",
      "}" ]
  }

  /** The interface declaration names its entity: different entities give different declarations. */
  lemma InterfaceDeclarationInjective(a: string, b: string)
    ensures InterfaceDeclaration(a) == InterfaceDeclaration(b) <==> a == b
  {
    var prefix := "    public interface I";
    var line := InterfaceDeclaration(a);
    if line == InterfaceDeclaration(b) {
      assert |a| == |b|;
      assert a == line[|prefix| .. |prefix| + |a|] == b;
    }
  }

  /** The class declaration names its entity: different entities give different declarations. */
  lemma ClassDeclarationInjective(a: string, b: string)
    ensures ClassDeclaration(a) == ClassDeclaration(b) <==> a == b
  {
    var prefix := "    public class ";
    var line := ClassDeclaration(a);
    if line == ClassDeclaration(b) {
      assert |a| == |b|;
      assert a == line[|prefix| .. |prefix| + |a|] == b;
    }
  }

  /**
   * The specific files depend on the table only through its PascalCase name,
   * and only in the interface declaration (line 6 of the interface file), the
   * class declaration (line 10 of the class file) and the constructor (line
   * 12). Each declaration determines the entity: two tables whose PascalCase
   * names differ get different declarations.
   */
  lemma SpecificRepositoryParameters(titleCase: CaseMapping, t1: Table, t2: Table, rootNamespace: string, dbContextName: string)
    ensures var n1, n2 := ToPascalCase(titleCase, t1.name), ToPascalCase(titleCase, t2.name);
      var i1, i2 := GenerateSpecificIRepository(titleCase, t1, rootNamespace), GenerateSpecificIRepository(titleCase, t2, rootNamespace);
      var c1 := GenerateSpecificRepositoryClass(titleCase, t1, rootNamespace, dbContextName);
      var c2 := GenerateSpecificRepositoryClass(titleCase, t2, rootNamespace, dbContextName);
      && |i1| == |i2| == 10 && |c1| == |c2| == 17
      && (forall k :: 0 <= k < 10 && k != 6 ==> i1[k] == i2[k])
      && (forall k :: 0 <= k < 17 && k != 10 && k != 12 ==> c1[k] == c2[k])
      && (i1[6] == i2[6] <==> n1 == n2)
      && (c1[10] == c2[10] <==> n1 == n2)
      && (n1 == n2 ==> i1 == i2 && c1 == c2)
  {
    var n1, n2 := ToPascalCase(titleCase, t1.name), ToPascalCase(titleCase, t2.name);
    InterfaceDeclarationInjective(n1, n2);
    ClassDeclarationInjective(n1, n2);
  }
}
