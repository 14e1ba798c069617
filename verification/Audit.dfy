/** `walkReachable` of audit/run-audit.mjs: everything the published entry points can load. */
module Audit {
  import opened Octet
  import opened Text
  import opened Reachability
  import Specifiers

  /** The readable files by URL, and how the platform resolves a specifier and names a path. */
  datatype Graph = Graph(
    files: map<string, string>,
    resolve: (string, string) -> Option<string>,
    toPath: string -> Option<string>)

  /** A foreign URL is one that names no file: asking for its path throws, and nothing catches that. */
  datatype Edge = Builtin(name: string) | Unresolvable | Target(url: string) | Foreign(url: string)

  predicate IsBuiltin(s: string) { "node:" <= s }

  function EdgeOf(g: Graph, url: string, spec: string): Edge {
    if IsBuiltin(spec) then Builtin(spec)
    else
      var r := g.resolve(spec, url);
      if r.None? then Unresolvable
      else if IsBuiltin(r.value) then Builtin(r.value)
      else if g.toPath(r.value).None? then Foreign(r.value)
      else Target(r.value)
  }

  /** A file that cannot be read has no specifiers. */
  function SpecifiersIn(g: Graph, url: string): seq<string> {
    if url in g.files then Specifiers.Scan("", g.files[url]) else []
  }

  const MODULES := "node_modules/"

  /** The position after the last occurrence of the modules directory in a path. */
  function AfterModules(path: string): (i: Option<nat>)
    ensures i.Some? ==> i.value <= |path|
  {
    if EndsWith(path, MODULES) then Some(|path|)
    else if path == "" then None
    else AfterModules(path[..|path| - 1])
  }

  function PackageOf(path: string): Option<string> {
    var i := AfterModules(path);
    if i.None? then None
    else
      var rest := Split(path[i.value..], '/');
      if "@" <= rest[0] then Some(rest[0] + "/" + (if |rest| > 1 then rest[1] else "undefined")) else Some(rest[0])
  }

  /** The modules directory that counts is the last one in the path. */
  lemma {:induction false} AfterLastModules(before: string, after: string)
    requires forall k :: 0 < k <= |after| ==> !EndsWith(before + MODULES + after[..k], MODULES)
    ensures AfterModules(before + MODULES + after) == Some(|before| + |MODULES|)
    decreases |after|
  {
    hide EndsWith;
    var path := before + MODULES + after;
    if after == "" {
      assert path == before + MODULES;
      EndsWithModules(before);
    } else {
      var n := |after| - 1;
      var shorter := before + MODULES + after[..n];
      assert after[..|after|] == after;
      assert !EndsWith(path, MODULES) && path != "" && path[..|path| - 1] == shorter;
      forall k | 0 < k <= n ensures !EndsWith(before + MODULES + after[..n][..k], MODULES) {
        assert after[..n][..k] == after[..k];
      }
      AfterLastModules(before, after[..n]);
    }
  }

  lemma EndsWithModules(before: string)
    ensures EndsWith(before + MODULES, MODULES)
  {
  }

  /** A file of an installed package is put down to that package, with its scope if it has one. */
  lemma PackageOfInstalled(before: string, scope: string, name: string, file: string)
    requires '/' !in scope && '/' !in name && name != "" && name[0] != '@'
    requires scope == "" || scope[0] == '@'
    requires var after := (if scope == "" then "" else scope + "/") + name + "/" + file;
             forall k :: 0 < k <= |after| ==> !EndsWith(before + "node_modules/" + after[..k], "node_modules/")
    ensures var package := (if scope == "" then "" else scope + "/") + name;
            PackageOf(before + "node_modules/" + (package + "/" + file)) == Some(package)
  {
    hide AfterModules, EndsWith, Split, PackageOf;
    var package := (if scope == "" then "" else scope + "/") + name;
    var after := package + "/" + file;
    PackageOfTail(before, after);
    SplitFirst(name, '/', file);
    if scope == "" {
      assert package == name;
      FirstOf(name, Split(file, '/'));
    } else {
      assert after == scope + "/" + (name + "/" + file);
      SplitFirst(scope, '/', name + "/" + file);
      FirstOf(name, Split(file, '/'));
      FirstOf(scope, [name] + Split(file, '/'));
      assert ("@" <= scope) by { assert scope[..1] == "@"; }
    }
  }

  lemma FirstOf(s: string, rest: seq<string>)
    ensures ([s] + rest)[0] == s && ([s] + rest)[1..] == rest && |[s] + rest| == 1 + |rest|
    ensures rest != [] ==> ([s] + rest)[1] == rest[0]
  {
  }

  lemma PackageOfTail(before: string, after: string)
    requires forall k :: 0 < k <= |after| ==> !EndsWith(before + MODULES + after[..k], MODULES)
    ensures var rest := Split(after, '/');
            PackageOf(before + MODULES + after)
            == Some(if "@" <= rest[0] then rest[0] + "/" + (if |rest| > 1 then rest[1] else "undefined") else rest[0])
  {
    hide AfterModules, Split, EndsWith;
    AfterLastModules(before, after);
    assert (before + MODULES + after)[|before| + |MODULES|..] == after;
  }

  /** A file that no modules directory is above belongs to no package. */
  lemma {:induction false} NoPackage(path: string)
    requires forall k :: 0 <= k <= |path| ==> !EndsWith(path[..k], "node_modules/")
    ensures PackageOf(path).None?
  {
    NoModules(path);
  }

  lemma {:induction false} NoModules(path: string)
    requires forall k :: 0 <= k <= |path| ==> !EndsWith(path[..k], MODULES)
    ensures AfterModules(path).None?
  {
    hide EndsWith;
    assert path[..|path|] == path;
    if path != "" {
      var init := path[..|path| - 1];
      forall k | 0 <= k <= |init| ensures !EndsWith(init[..k], MODULES) { assert init[..k] == path[..k]; }
      NoModules(init);
    }
  }

  /** What a list of specifiers of one file leads to. */
  datatype Uses = Uses(
    targets: set<string>, packages: set<string>, builtins: set<string>, unresolved: set<(string, string)>,
    foreign: set<string>)

  /** The package a URL's file belongs to. */
  function PackageAt(g: Graph, target: string): Option<string> {
    var path := g.toPath(target);
    if path.None? then None else PackageOf(path.value)
  }

  function PackageSet(g: Graph, target: string): set<string> {
    var p := PackageAt(g, target);
    if p.None? then {} else {p.value}
  }

  function Add(g: Graph, url: string, spec: string, u: Uses): Uses {
    match EdgeOf(g, url, spec)
    case Builtin(name) => u.(builtins := u.builtins + {name})
    case Unresolvable => u.(unresolved := u.unresolved + {(spec, url)})
    case Target(t) => u.(targets := u.targets + {t}, packages := u.packages + PackageSet(g, t))
    case Foreign(t) => u.(foreign := u.foreign + {t})
  }

  function UsesOf(g: Graph, url: string, specs: seq<string>): Uses {
    if specs == [] then Uses({}, {}, {}, {}, {})
    else Add(g, url, specs[|specs| - 1], UsesOf(g, url, specs[..|specs| - 1]))
  }

  function FileUses(g: Graph, url: string): Uses { UsesOf(g, url, SpecifiersIn(g, url)) }

  /** Each part of the answer, said of single specifiers. */
  lemma {:induction false} UsesMeaning(g: Graph, url: string, specs: seq<string>)
    ensures var u := UsesOf(g, url, specs);
            && (forall t :: t in u.targets <==> exists s :: s in specs && EdgeOf(g, url, s) == Target(t))
            && (forall b :: b in u.builtins <==> exists s :: s in specs && EdgeOf(g, url, s) == Builtin(b))
            && (forall f :: f in u.foreign <==> exists s :: s in specs && EdgeOf(g, url, s) == Foreign(f))
            && (forall p :: p in u.packages <==> exists t :: t in u.targets && PackageAt(g, t) == Some(p))
            && (forall s, f :: (s, f) in u.unresolved <==> s in specs && EdgeOf(g, url, s) == Unresolvable && f == url)
  {
    hide EdgeOf, PackageAt;
    if specs != [] {
      var init, last := specs[..|specs| - 1], specs[|specs| - 1];
      UsesMeaning(g, url, init);
      assert forall s :: s in specs <==> s in init || s == last;
    }
  }

  /** The specifiers in a file's source. */
  lemma SpecifiersMean(g: Graph, url: string)
    ensures SpecifiersIn(g, url) == if url in g.files then Specifiers.Scan("", g.files[url]) else []
  {
  }

  /**
   * What a file's source leads to, in terms of the platform's resolution alone. A
   * specifier with the `node:` prefix is a builtin; any other is resolved from the
   * file that holds it, to nothing, to a builtin, to a file or to a foreign URL.
   */
  lemma TargetIff(g: Graph, url: string, t: string)
    ensures t in FileUses(g, url).targets <==>
              exists s :: s in SpecifiersIn(g, url) && !("node:" <= s) && g.resolve(s, url) == Some(t)
                          && !("node:" <= t) && g.toPath(t).Some?
  {
    hide SpecifiersIn;
    UsesMeaning(g, url, SpecifiersIn(g, url));
  }

  lemma ForeignIff(g: Graph, url: string, t: string)
    ensures t in FileUses(g, url).foreign <==>
              exists s :: s in SpecifiersIn(g, url) && !("node:" <= s) && g.resolve(s, url) == Some(t)
                          && !("node:" <= t) && g.toPath(t).None?
  {
    hide SpecifiersIn;
    UsesMeaning(g, url, SpecifiersIn(g, url));
  }

  lemma BuiltinIff(g: Graph, url: string, b: string)
    ensures b in FileUses(g, url).builtins <==>
              exists s :: s in SpecifiersIn(g, url) && if "node:" <= s then b == s else g.resolve(s, url) == Some(b) && "node:" <= b
  {
    hide SpecifiersIn;
    UsesMeaning(g, url, SpecifiersIn(g, url));
  }

  lemma UnresolvedIff(g: Graph, url: string, s: string, f: string)
    ensures (s, f) in FileUses(g, url).unresolved <==>
              f == url && s in SpecifiersIn(g, url) && !("node:" <= s) && g.resolve(s, url).None?
  {
    hide SpecifiersIn;
    UsesMeaning(g, url, SpecifiersIn(g, url));
  }

  lemma PackageIff(g: Graph, url: string, p: string)
    ensures p in FileUses(g, url).packages <==>
              exists s, t :: s in SpecifiersIn(g, url) && !("node:" <= s) && g.resolve(s, url) == Some(t)
                             && !("node:" <= t) && g.toPath(t).Some? && PackageOf(g.toPath(t).value) == Some(p)
  {
    UsesMeaning(g, url, SpecifiersIn(g, url));
    hide SpecifiersIn, PackageOf, FileUses, UsesOf;
    if p in FileUses(g, url).packages {
      assert FileUses(g, url) == UsesOf(g, url, SpecifiersIn(g, url)) by { FileUsesAre(g, url); }
      var t :| t in FileUses(g, url).targets && PackageAt(g, t) == Some(p);
      TargetIff(g, url, t);
      var s :| s in SpecifiersIn(g, url) && !("node:" <= s) && g.resolve(s, url) == Some(t)
               && !("node:" <= t) && g.toPath(t).Some?;
    }
    forall s, t | s in SpecifiersIn(g, url) && !("node:" <= s) && g.resolve(s, url) == Some(t)
                  && !("node:" <= t) && g.toPath(t).Some? && PackageOf(g.toPath(t).value) == Some(p)
      ensures p in FileUses(g, url).packages
    {
      TargetIff(g, url, t);
      assert t in FileUses(g, url).targets && PackageAt(g, t) == Some(p);
      FileUsesAre(g, url);
    }
  }

  lemma FileUsesAre(g: Graph, url: string)
    ensures FileUses(g, url) == UsesOf(g, url, SpecifiersIn(g, url))
  {
  }

  ghost function Succ(g: Graph): string -> set<string> { url => FileUses(g, url).targets }

  /** Every URL a walk can ever meet. */
  function Universe(g: Graph, roots: set<string>): set<string> {
    roots + set url, t | url in g.files && t in FileUses(g, url).targets :: t
  }

  /** The inner loop: one file's specifiers. Not `ok` is the exception of a foreign URL. */
  method ReadFile(g: Graph, url: string)
      returns (ok: bool, targets: seq<string>, packages: set<string>, builtins: set<string>,
               unresolved: seq<(string, string)>)
    ensures ok <==> FileUses(g, url).foreign == {}
    ensures ok ==> Uses(Elements(targets), packages, builtins, Elements(unresolved), {}) == FileUses(g, url)
  {
    hide EdgeOf, PackageAt, SpecifiersIn;
    ok, targets, packages, builtins, unresolved := true, [], {}, {}, [];
    var specs := ReadSpecifiers(g, url);
    for i := 0 to |specs|
      invariant Uses(Elements(targets), packages, builtins, Elements(unresolved), {}) == UsesOf(g, url, specs[..i])
    {
      assert specs[..i + 1][..i] == specs[..i];
      match EdgeOf(g, url, specs[i])
      case Builtin(name) =>
        builtins := builtins + {name};
      case Unresolvable =>
        unresolved := unresolved + [(specs[i], url)];
      case Target(t) =>
        packages := packages + PackageSet(g, t);
        targets := targets + [t];
      case Foreign(t) =>
        UsesMeaning(g, url, specs);
        assert t in FileUses(g, url).foreign;
        ok := false;
        return;
    }
    assert specs[..|specs|] == specs;
  }

  method ReadSpecifiers(g: Graph, url: string) returns (specs: seq<string>)
    ensures specs == SpecifiersIn(g, url)
  {
    specs := [];
    if url in g.files { specs := Specifiers.SpecifiersOf(g.files[url]); }
  }

  /** What holds of some file that an import path reaches from the roots. */
  ghost predicate Somewhere(g: Graph, roots: seq<string>, holds: string -> bool) {
    exists u :: Reachable(Elements(roots), Succ(g), u) && holds(u)
  }

  /** The union over a set of files. */
  ghost predicate Collects(g: Graph, seen: set<string>, packages: set<string>, builtins: set<string>,
                           unresolved: seq<(string, string)>)
  {
    && (forall p :: p in packages <==> exists u :: u in seen && p in FileUses(g, u).packages)
    && (forall b :: b in builtins <==> exists u :: u in seen && b in FileUses(g, u).builtins)
    && (forall x :: x in unresolved <==> exists u :: u in seen && x in FileUses(g, u).unresolved)
  }

  /** What the walk names as a builtin: what a specifier of a file it reaches is, or is resolved to from that file. */
  lemma BuiltinMet(g: Graph, roots: seq<string>, b: string)
    ensures Somewhere(g, roots, u => b in FileUses(g, u).builtins) <==>
              exists u, s :: Reachable(Elements(roots), Succ(g), u) && s in SpecifiersIn(g, u)
                             && if "node:" <= s then b == s else g.resolve(s, u) == Some(b) && "node:" <= b
  {
    hide FileUses, Reachable, SpecifiersIn;
    if Somewhere(g, roots, u => b in FileUses(g, u).builtins) {
      var u :| Reachable(Elements(roots), Succ(g), u) && b in FileUses(g, u).builtins;
      BuiltinIff(g, u, b);
      var s :| s in SpecifiersIn(g, u) && if "node:" <= s then b == s else g.resolve(s, u) == Some(b) && "node:" <= b;
    }
    forall u, s | Reachable(Elements(roots), Succ(g), u) && s in SpecifiersIn(g, u)
                  && if "node:" <= s then b == s else g.resolve(s, u) == Some(b) && "node:" <= b
      ensures Somewhere(g, roots, u => b in FileUses(g, u).builtins)
    {
      BuiltinIff(g, u, b);
      assert b in FileUses(g, u).builtins;
    }
  }

  /** As unresolvable: a specifier that is no builtin and is resolved to nothing from the file it stands in. */
  lemma UnresolvedMet(g: Graph, roots: seq<string>, s: string, f: string)
    ensures Somewhere(g, roots, u => (s, f) in FileUses(g, u).unresolved) <==>
              Reachable(Elements(roots), Succ(g), f) && s in SpecifiersIn(g, f) && !("node:" <= s) && g.resolve(s, f).None?
  {
    hide FileUses, Reachable, SpecifiersIn;
    UnresolvedIff(g, f, s, f);
    if Somewhere(g, roots, u => (s, f) in FileUses(g, u).unresolved) {
      var u :| Reachable(Elements(roots), Succ(g), u) && (s, f) in FileUses(g, u).unresolved;
      UnresolvedIff(g, u, s, f);
    }
  }

  /** As a package: the one an installed file belongs to that a specifier is resolved to. */
  lemma PackageMet(g: Graph, roots: seq<string>, p: string)
    ensures Somewhere(g, roots, u => p in FileUses(g, u).packages) <==>
              exists u, s, t :: Reachable(Elements(roots), Succ(g), u) && s in SpecifiersIn(g, u) && !("node:" <= s)
                                && g.resolve(s, u) == Some(t) && !("node:" <= t)
                                && g.toPath(t).Some? && PackageOf(g.toPath(t).value) == Some(p)
  {
    hide FileUses, Reachable, SpecifiersIn, PackageOf;
    if Somewhere(g, roots, u => p in FileUses(g, u).packages) {
      var u :| Reachable(Elements(roots), Succ(g), u) && p in FileUses(g, u).packages;
      PackageIff(g, u, p);
      var s, t :| s in SpecifiersIn(g, u) && !("node:" <= s) && g.resolve(s, u) == Some(t)
                  && !("node:" <= t) && g.toPath(t).Some? && PackageOf(g.toPath(t).value) == Some(p);
    }
    forall u, s, t | Reachable(Elements(roots), Succ(g), u) && s in SpecifiersIn(g, u) && !("node:" <= s)
                     && g.resolve(s, u) == Some(t) && !("node:" <= t)
                     && g.toPath(t).Some? && PackageOf(g.toPath(t).value) == Some(p)
      ensures Somewhere(g, roots, u => p in FileUses(g, u).packages)
    {
      PackageIff(g, u, p);
      assert p in FileUses(g, u).packages;
    }
  }

  /** The walk ends in an exception where a specifier is resolved to a URL that is no builtin and names no file. */
  lemma ForeignMet(g: Graph, roots: seq<string>)
    ensures Somewhere(g, roots, u => FileUses(g, u).foreign != {}) <==>
              exists u, s, t :: Reachable(Elements(roots), Succ(g), u) && s in SpecifiersIn(g, u) && !("node:" <= s)
                                && g.resolve(s, u) == Some(t) && !("node:" <= t) && g.toPath(t).None?
  {
    hide FileUses, Reachable, SpecifiersIn;
    if Somewhere(g, roots, u => FileUses(g, u).foreign != {}) {
      var u :| Reachable(Elements(roots), Succ(g), u) && FileUses(g, u).foreign != {};
      var t :| t in FileUses(g, u).foreign;
      ForeignIff(g, u, t);
      var s :| s in SpecifiersIn(g, u) && !("node:" <= s) && g.resolve(s, u) == Some(t) && !("node:" <= t) && g.toPath(t).None?;
    }
    forall u, s, t | Reachable(Elements(roots), Succ(g), u) && s in SpecifiersIn(g, u) && !("node:" <= s)
                     && g.resolve(s, u) == Some(t) && !("node:" <= t) && g.toPath(t).None?
      ensures Somewhere(g, roots, u => FileUses(g, u).foreign != {})
    {
      ForeignIff(g, u, t);
      assert t in FileUses(g, u).foreign;
    }
  }

  /** From one URL the walk goes on to another where a specifier of the file is resolved to that file. */
  lemma EdgeIff(g: Graph, url: string, t: string)
    ensures t in Succ(g)(url) <==>
              exists s :: s in SpecifiersIn(g, url) && !("node:" <= s) && g.resolve(s, url) == Some(t)
                          && !("node:" <= t) && g.toPath(t).Some?
  {
    hide SpecifiersIn, FileUses;
    TargetIff(g, url, t);
  }

  /**
   * For every import graph, with cycles and duplicates, the walk ends having seen
   * exactly the URLs some import path reaches from the roots, and having named
   * exactly the packages, builtins and unresolvable specifiers of those files. It
   * ends in an exception exactly when one of those files leads to a foreign URL.
   */
  method WalkReachable(g: Graph, roots: seq<string>)
      returns (ok: bool, packages: set<string>, builtins: set<string>, unresolved: seq<(string, string)>, filesWalked: nat)
    ensures ok <==> !Somewhere(g, roots, u => FileUses(g, u).foreign != {})
    ensures ok ==> forall p :: p in packages <==> Somewhere(g, roots, u => p in FileUses(g, u).packages)
    ensures ok ==> forall b :: b in builtins <==> Somewhere(g, roots, u => b in FileUses(g, u).builtins)
    ensures ok ==> forall x :: x in unresolved <==> Somewhere(g, roots, u => x in FileUses(g, u).unresolved)
    ensures ok ==> exists seen: set<string> ::
              filesWalked == |seen| && forall u :: u in seen <==> Reachable(Elements(roots), Succ(g), u)
  {
    hide EdgeOf, SpecifiersIn, FileUses, Reachable, Progress, Collects, Universe;
    ghost var rootSet := Elements(roots);
    ghost var universe := Universe(g, rootSet);
    ok, packages, builtins, unresolved, filesWalked := true, {}, {}, [], 0;
    var visited: set<string> := {};
    var queue := roots;
    StartProgress(rootSet, Succ(g), queue);
    StartCollects(g, rootSet);
    while queue != []
      invariant Progress(rootSet, Succ(g), visited, queue)
      invariant Collects(g, visited, packages, builtins, unresolved)
      invariant forall u :: u in visited ==> FileUses(g, u).foreign == {}
      invariant visited <= universe && Elements(queue) <= universe
      decreases universe - visited, |queue|
    {
      var url, rest := queue[0], queue[1..];
      assert url in Elements(queue);
      assert Elements(rest) <= Elements(queue) by { assert forall u :: u in rest ==> u in queue; }
      if url in visited {
        Visited(rootSet, Succ(g), visited, queue, []);
        assert visited + {url} == visited && rest + [] == rest;
        queue := rest;
        continue;
      }
      var fine, targets, ps, bs, us := ReadFile(g, url);
      if !fine {
        PendingIsReachable(rootSet, Succ(g), visited, queue, url);
        ok := false;
        return;
      }
      TargetsInUniverse(g, rootSet, url);
      Visited(rootSet, Succ(g), visited, queue, targets);
      CollectsOneMore(g, visited, packages, builtins, unresolved, url, ps, bs, us);
      packages, builtins, unresolved := packages + ps, builtins + bs, unresolved + us;
      visited := visited + {url};
      queue := rest + targets;
      assert Elements(queue) == Elements(rest) + Elements(targets);
    }
    DoneIsReachable(rootSet, Succ(g), visited);
    CollectsReachable(g, roots, visited, packages, builtins, unresolved);
    filesWalked := |visited|;
  }

  lemma CollectsReachable(g: Graph, roots: seq<string>, seen: set<string>, packages: set<string>, builtins: set<string>,
                          unresolved: seq<(string, string)>)
    requires forall u :: u in seen <==> Reachable(Elements(roots), Succ(g), u)
    requires Collects(g, seen, packages, builtins, unresolved)
    ensures forall p :: p in packages <==> Somewhere(g, roots, u => p in FileUses(g, u).packages)
    ensures forall b :: b in builtins <==> Somewhere(g, roots, u => b in FileUses(g, u).builtins)
    ensures forall x :: x in unresolved <==> Somewhere(g, roots, u => x in FileUses(g, u).unresolved)
  {
    hide FileUses, Reachable;
  }

  lemma StartCollects(g: Graph, roots: set<string>)
    ensures Collects(g, {}, {}, {}, [])
    ensures roots <= Universe(g, roots)
  {
  }

  /** One turn of the queue. */
  lemma Visited(roots: set<string>, succ: string -> set<string>, seen: set<string>, queue: seq<string>, added: seq<string>)
    requires queue != [] && Progress(roots, succ, seen, queue)
    requires if queue[0] in seen then added == [] else Elements(added) == succ(queue[0])
    ensures Progress(roots, succ, seen + {queue[0]}, queue[1..] + added)
  {
    hide Progress;
    assert queue == [queue[0]] + queue[1..];
    if queue[0] !in seen { assert forall m :: m in added <==> m in Elements(added); }
    VisitKeepsProgress(roots, succ, seen, queue, queue[0], queue[1..], added);
  }

  lemma TargetsInUniverse(g: Graph, roots: set<string>, url: string)
    ensures FileUses(g, url).targets <= Universe(g, roots)
  {
    if url !in g.files { assert FileUses(g, url).targets == {}; }
  }

  lemma CollectsOneMore(g: Graph, seen: set<string>, packages: set<string>, builtins: set<string>,
                        unresolved: seq<(string, string)>, url: string,
                        ps: set<string>, bs: set<string>, us: seq<(string, string)>)
    requires Collects(g, seen, packages, builtins, unresolved)
    requires FileUses(g, url).packages == ps && FileUses(g, url).builtins == bs
    requires FileUses(g, url).unresolved == Elements(us)
    ensures Collects(g, seen + {url}, packages + ps, builtins + bs, unresolved + us)
  {
    hide FileUses;
    assert forall x :: x in FileUses(g, url).unresolved <==> x in us;
  }
}
