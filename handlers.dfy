/**
 * The dispatcher: a job's handler string `[module/]Class[@method]` or a fully
 * qualified `Ns\Class[@method]` is split into class and method, the class name
 * is expanded into the application's `job` namespace, looked up among the
 * loadable classes, and, when found, invoked.
 */
module Handlers {
  import opened Wrappers
  import opened Text

  /** The method invoked when a handler string names none. */
  const DefaultMethod: string := "fire"

  /** An invocation of `method` on a fresh instance of `className`. */
  datatype Invocation = Invocation(className: string, methodName: string)

  /**
   * `parseJob`: explode on `@`; with more than one segment the first two are
   * class and method, otherwise the method is `fire`.
   */
  function ParseJob(job: string): (r: (string, string))
  {
    var segments := Explode('@', job);
    if |segments| > 1 then (segments[0], segments[1]) else (segments[0], DefaultMethod)
  }

  /**
   * Neither part contains `@`. Without an `@` the whole string is the class
   * and `fire` the method; with one, the class is shorter than the string.
   */
  lemma ParseJobShape(job: string)
    ensures '@' !in ParseJob(job).0 && '@' !in ParseJob(job).1
    ensures '@' !in job ==> ParseJob(job) == (job, DefaultMethod)
    ensures '@' in job ==> |ParseJob(job).0| < |job|
  {
    ExplodeSegments('@', job);
    ImplodeExplode('@', job);
  }

  /**
   * With an `@`, the class is the text before the first `@` and the method the
   * text from there up to the second `@` or the end: the string starts with
   * `class@method`, followed by nothing or by another `@`.
   */
  lemma ParseJobAtFirstAt(job: string)
    requires '@' in job
    ensures var (cls, meth) := ParseJob(job);
      var m := |cls| + 1 + |meth|;
      m <= |job| && job[..m] == cls + "@" + meth && (m == |job| || job[m] == '@')
  {
    SplitFirstSpec('@', job);
    var (a, b) := SplitFirst('@', job).value;
    ParseJobAfterClass(a, b);
    FirstSegmentPrefix('@', b);
    var meth := Explode('@', b)[0];
    var m := |a| + 1 + |meth|;
    assert job == (a + "@") + b;
    assert job[..m] == (a + "@") + b[..|meth|];
  }

  /** After a class free of `@` and one `@`, the method is the first segment of the rest. */
  lemma ParseJobAfterClass(a: string, b: string)
    requires '@' !in a
    ensures ParseJob(a + "@" + b) == (a, Explode('@', b)[0])
  {
    ExplodeAppend('@', a, b);
  }

  /** Class and method without `@`, joined by one `@`, parse back into themselves. */
  lemma ParseJobOf(cls: string, meth: string)
    requires '@' !in cls && '@' !in meth
    ensures ParseJob(cls + "@" + meth) == (cls, meth)
  {
    ExplodeAppend('@', cls, meth);
    ExplodeFree('@', meth);
  }

  /** PHP truthiness of a string: only `""` and `"0"` are false. */
  predicate Truthy(s: string) { s != "" && s != "0" }

  /**
   * The name expansion in `resolve`: a name containing a backslash is taken
   * as it is; otherwise it is split at its first `/` into module and class
   * (no `/`: an empty module) and becomes
   * `ns [\ lower(module)] \job\ class`, the module segment present only when
   * the module is truthy.
   */
  function Expand(ns: string, name: string): string
  {
    if '\\' in name then name
    else
      var (moduleName, rest) := match SplitFirst('/', name)
        case None => ("", name)
        case Some(p) => p;
      ns + (if Truthy(moduleName) then "\\" + Lower(moduleName) else "") + "\\job\\" + rest
  }

  /** A name with a backslash is kept; a bare name goes straight into `ns\job`. */
  lemma ExpandForms(ns: string, name: string)
    ensures '\\' in name ==> Expand(ns, name) == name
    ensures '\\' !in name && '/' !in name ==> Expand(ns, name) == ns + "\\job\\" + name
  {
    SplitFirstSpec('/', name);
  }

  /** The short form `module/Class`: split at the first `/` only. */
  lemma ExpandShortForm(ns: string, moduleName: string, rest: string)
    requires '\\' !in moduleName && '\\' !in rest && '/' !in moduleName
    ensures Expand(ns, moduleName + "/" + rest)
         == ns + (if Truthy(moduleName) then "\\" + Lower(moduleName) else "") + "\\job\\" + rest
  {
    SplitFirstOf('/', moduleName, rest);
    assert '\\' !in moduleName + "/" + rest;
  }

  /**
   * The key under which PHP looks a declared class up: class names are
   * case-insensitive and a leading backslash is ignored. (An autoloader may
   * still find the file of only one spelling; that is not modelled.)
   */
  function ClassKey(name: string): string
  {
    Lower(if |name| > 0 && name[0] == '\\' then name[1..] else name)
  }

  /** `class_exists`, over the set of keys of the classes that can be loaded. */
  predicate ClassExists(registry: set<string>, name: string)
  {
    ClassKey(name) in registry
  }

  /** `resolve`: the expanded name when such a class exists, otherwise nothing. */
  function Resolve(ns: string, registry: set<string>, name: string): (r: Option<string>)
    ensures r.Some? <==> ClassExists(registry, Expand(ns, name))
    ensures r.Some? ==> r.value == Expand(ns, name)
  {
    var full := Expand(ns, name);
    if ClassExists(registry, full) then Some(full) else None
  }

  /**
   * `resolveAndFire`: the invocation it performs, or `None` when the class
   * does not resolve and nothing is invoked.
   */
  function ResolveAndFire(ns: string, registry: set<string>, job: string): (r: Option<Invocation>)
    ensures r.None? <==> !ClassExists(registry, Expand(ns, ParseJob(job).0))
    ensures r.Some? ==> r.value.className == Expand(ns, ParseJob(job).0)
    ensures r.Some? ==> r.value.methodName == ParseJob(job).1
  {
    var (cls, meth) := ParseJob(job);
    match Resolve(ns, registry, cls)
    case None => None
    case Some(full) => Some(Invocation(full, meth))
  }

  /**
   * End to end for `module/Class@method`: the class is looked up in the
   * module's `job` namespace and, if found, the named method is invoked.
   */
  lemma FireShortForm(ns: string, registry: set<string>, moduleName: string, cls: string, meth: string)
    requires '@' !in moduleName && '@' !in cls && '@' !in meth
    requires '\\' !in moduleName && '\\' !in cls && '/' !in moduleName
    ensures var target := ns + (if Truthy(moduleName) then "\\" + Lower(moduleName) else "") + "\\job\\" + cls;
      ResolveAndFire(ns, registry, moduleName + "/" + cls + "@" + meth)
        == if ClassExists(registry, target) then Some(Invocation(target, meth)) else None
  {
    var short := moduleName + "/" + cls;
    assert '@' !in short;
    assert moduleName + "/" + cls + "@" + meth == short + "@" + meth;
    ParseJobOf(short, meth);
    ExpandShortForm(ns, moduleName, cls);
  }

  /** A bare class name without `@` dispatches to `fire` in `ns\job`. */
  lemma FireBareName(ns: string, registry: set<string>, cls: string)
    requires '@' !in cls && '\\' !in cls && '/' !in cls
    ensures var target := ns + "\\job\\" + cls;
      ResolveAndFire(ns, registry, cls)
        == if ClassExists(registry, target) then Some(Invocation(target, DefaultMethod)) else None
  {
    ParseJobShape(cls);
    ExpandForms(ns, cls);
  }
}
