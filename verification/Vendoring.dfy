/** scripts/vendor-fips.mjs: the files the FIPS module needs, moved into its own directory. */
module Vendoring {
  import opened Octet
  import opened Text
  import opened PosixPath
  import opened Reachability
  import ImportText

  /** The installed files by path, where they are installed, and where they are to go. */
  datatype Tree = Tree(root: Path, vendor: Path, files: map<Path, string>)

  predicate ValidTree(t: Tree) {
    ValidPath(t.root) && ValidPath(t.vendor) && forall f :: f in t.files ==> ValidPath(f)
  }

  /** None where `join` would be given a name that is not there. */
  function SourcePath(t: Tree, spec: string, from: Path): Option<Path> {
    var segments := Split(spec, '/');
    if StartsWithDot(spec) then Some(Resolve(Dirname(from), segments))
    else if |segments| < 2 then None
    else Some(Resolve(t.root, segments))
  }

  /** The package scope is dropped: a file keeps its path below it. */
  function VendorPath(t: Tree, file: Path): Option<Path> {
    var rel := Relative(t.root, file);
    if |rel| < 2 then None else Some(Resolve(t.vendor, rel[1..]))
  }

  function SpecsIn(t: Tree, file: Path): seq<string> {
    if file in t.files then ImportText.Specs(t.files[file], true) else []
  }

  /** The file can be read and every specifier in it is understood. */
  predicate Readable(t: Tree, file: Path) {
    file in t.files && forall i :: 0 <= i < |SpecsIn(t, file)| ==> SourcePath(t, SpecsIn(t, file)[i], file).Some?
  }

  /** The paths a list of specifiers of one file leads to. */
  function Sources(t: Tree, file: Path, specs: seq<string>): set<Path> {
    set i | 0 <= i < |specs| && SourcePath(t, specs[i], file).Some? :: SourcePath(t, specs[i], file).value
  }

  ghost function Succ(t: Tree): Path -> set<Path> { file => Sources(t, file, SpecsIn(t, file)) }

  function Entries(t: Tree, entries: seq<string>): set<Path> { Sources(t, [], entries) }

  /** What the closure of the entries must be: every path they reach, all of them readable. */
  ghost predicate IsClosure(t: Tree, entries: seq<string>, s: set<Path>) {
    && (forall i :: 0 <= i < |entries| ==> SourcePath(t, entries[i], []).Some?)
    && (forall f :: f in s <==> Reachable(Entries(t, entries), Succ(t), f))
    && (forall f :: f in s ==> Readable(t, f))
  }

  /**
   * A specifier that begins with a dot is a path from the file's own directory;
   * any other is a package's path in the modules directory, and needs a slash.
   */
  lemma SourceMeans(t: Tree, spec: string, from: Path)
    ensures SourcePath(t, spec, from)
            == if spec != "" && spec[0] == '.' then Some(Resolve(if from == [] then [] else from[..|from| - 1], Split(spec, '/')))
               else if '/' !in spec then None
               else Some(Resolve(t.root, Split(spec, '/')))
  {
    SlashIff(spec);
  }

  lemma SlashIff(spec: string)
    ensures |Split(spec, '/')| >= 2 <==> '/' in spec
  {
    var i := IndexOf(spec, '/');
    if '/' !in spec { IndexOfMissing(spec, '/'); }
    if i < |spec| { assert Split(spec[i + 1..], '/') != []; }
  }

  lemma BareSource(t: Tree, names: Path, from: Path)
    requires ValidPath(names) && |names| >= 2 && !StartsWithDot(Join(names, '/'))
    ensures SourcePath(t, Join(names, '/'), from) == Some(t.root + names)
  {
    hide Resolve, Join, Split;
    forall p | p in names ensures '/' !in p { var i :| 0 <= i < |names| && names[i] == p; assert IsName(names[i]); }
    SplitJoin(names, '/');
    ResolveNames(t.root, names);
  }

  /**
   * A closure holds what the entries lead to and what any specifier of its files
   * leads to, all of it readable; and it is the least set that does.
   */
  lemma ClosureMeans(t: Tree, entries: seq<string>, s: set<Path>)
    requires IsClosure(t, entries, s)
    ensures forall i :: 0 <= i < |entries| ==> SourcePath(t, entries[i], []).Some? && SourcePath(t, entries[i], []).value in s
    ensures forall f, i :: f in s && f in t.files && 0 <= i < |ImportText.Specs(t.files[f], true)| ==>
              var to := SourcePath(t, ImportText.Specs(t.files[f], true)[i], f); to.Some? && to.value in s
    ensures forall f :: f in s ==> f in t.files
    ensures forall c: set<Path> ::
              && (forall i :: 0 <= i < |entries| ==> SourcePath(t, entries[i], []).value in c)
              && (forall f, i :: f in c && 0 <= i < |SpecsIn(t, f)| && SourcePath(t, SpecsIn(t, f)[i], f).Some? ==>
                    SourcePath(t, SpecsIn(t, f)[i], f).value in c)
              ==> s <= c
  {
    hide SourcePath, Reachable, ImportText.Specs;
    var roots := Entries(t, entries);
    forall i | 0 <= i < |entries| ensures SourcePath(t, entries[i], []).value in s {
      RootReachable(roots, Succ(t), SourcePath(t, entries[i], []).value);
    }
    forall f, i | f in s && f in t.files && 0 <= i < |ImportText.Specs(t.files[f], true)|
      ensures var to := SourcePath(t, ImportText.Specs(t.files[f], true)[i], f); to.Some? && to.value in s
    {
      assert Readable(t, f) && SpecsIn(t, f) == ImportText.Specs(t.files[f], true);
      var to := SourcePath(t, SpecsIn(t, f)[i], f);
      assert to.value in Succ(t)(f);
      SuccessorReachable(roots, Succ(t), f, to.value);
    }
    forall c: set<Path> |
      && (forall i :: 0 <= i < |entries| ==> SourcePath(t, entries[i], []).value in c)
      && (forall f, i :: f in c && 0 <= i < |SpecsIn(t, f)| && SourcePath(t, SpecsIn(t, f)[i], f).Some? ==>
            SourcePath(t, SpecsIn(t, f)[i], f).value in c)
      ensures s <= c
    {
      ClosedContains(t, entries, s, c);
    }
  }

  lemma ClosedContains(t: Tree, entries: seq<string>, s: set<Path>, c: set<Path>)
    requires IsClosure(t, entries, s)
    requires forall i :: 0 <= i < |entries| ==> SourcePath(t, entries[i], []).value in c
    requires forall f, i :: f in c && 0 <= i < |SpecsIn(t, f)| && SourcePath(t, SpecsIn(t, f)[i], f).Some? ==>
               SourcePath(t, SpecsIn(t, f)[i], f).value in c
    ensures s <= c
  {
    hide SourcePath, SpecsIn;
    var roots := Entries(t, entries);
    assert roots <= c;
    assert Closed(Succ(t), c);
    forall f | f in s ensures f in c {
      var p :| IsPath(roots, Succ(t), p) && p[|p| - 1] == f;
      PathStaysInside(roots, Succ(t), c, p);
    }
  }

  /** One file's specifiers as paths, in order; None as soon as one is not understood. */
  method SourcesOf(t: Tree, file: Path, specs: seq<string>) returns (r: Option<seq<Path>>)
    ensures r.Some? <==> forall i :: 0 <= i < |specs| ==> SourcePath(t, specs[i], file).Some?
    ensures r.Some? ==> Elements(r.value) == Sources(t, file, specs)
  {
    hide SourcePath;
    var out: seq<Path> := [];
    for i := 0 to |specs|
      invariant |out| == i
      invariant forall j :: 0 <= j < i ==> SourcePath(t, specs[j], file) == Some(out[j])
    {
      var p := SourcePath(t, specs[i], file);
      if p.None? { return None; }
      out := out + [p.value];
    }
    forall p | p in Sources(t, file, specs) ensures p in out {
      var i :| 0 <= i < |specs| && SourcePath(t, specs[i], file) == Some(p);
      assert out[i] == p;
    }
    return Some(out);
  }

  /**
   * The stack walk. It succeeds exactly when everything reachable from the
   * entries is readable, and then it has found exactly that.
   */
  method Closure(t: Tree, entries: seq<string>) returns (r: Option<set<Path>>)
    ensures r.Some? ==> IsClosure(t, entries, r.value)
    ensures r.None? ==> forall s :: !IsClosure(t, entries, s)
  {
    hide SourcePath, Reachable, Progress, Readable, SpecsIn, Sources;
    var start := SourcesOf(t, [], entries);
    if start.None? { return None; }
    ghost var roots := Entries(t, entries);
    var seen: set<Path> := {};
    var todo := start.value;
    assert forall n :: n in todo <==> n in Elements(todo);
    StartProgress(roots, Succ(t), todo);
    while todo != []
      invariant Progress(roots, Succ(t), seen, todo)
      invariant forall f :: f in seen ==> Readable(t, f)
      invariant seen <= t.files.Keys
      decreases t.files.Keys - seen, |todo|
    {
      var file, rest := todo[|todo| - 1], todo[..|todo| - 1];
      if file in seen {
        Popped(roots, Succ(t), seen, todo, []);
        assert seen + {file} == seen && rest + [] == rest;
        todo := rest;
        continue;
      }
      PendingIsReachable(roots, Succ(t), seen, todo, file);
      var targets: Option<seq<Path>> := None;
      if file in t.files { targets := SourcesOf(t, file, SpecsIn(t, file)); }
      if targets.None? {
        assert !Readable(t, file) by { ReadableIff(t, file); }
        return None;
      }
      ReadableIff(t, file);
      Popped(roots, Succ(t), seen, todo, targets.value);
      seen := seen + {file};
      todo := rest + targets.value;
    }
    DoneIsReachable(roots, Succ(t), seen);
    return Some(seen);
  }

  lemma ReadableIff(t: Tree, file: Path)
    ensures Readable(t, file) <==>
            file in t.files && forall i :: 0 <= i < |SpecsIn(t, file)| ==> SourcePath(t, SpecsIn(t, file)[i], file).Some?
  {
  }

  /** One turn of the stack. */
  lemma Popped(roots: set<Path>, succ: Path -> set<Path>, seen: set<Path>, todo: seq<Path>, added: seq<Path>)
    requires todo != [] && Progress(roots, succ, seen, todo)
    requires var n := todo[|todo| - 1]; if n in seen then added == [] else Elements(added) == succ(n)
    ensures Progress(roots, succ, seen + {todo[|todo| - 1]}, todo[..|todo| - 1] + added)
  {
    hide Progress;
    var n, rest := todo[|todo| - 1], todo[..|todo| - 1];
    assert todo == rest + [n];
    if n !in seen { assert forall m :: m in added <==> m in Elements(added); }
    VisitKeepsProgress(roots, succ, seen, todo, n, rest, added);
  }

  /** The specifier that takes the place of `spec` in the vendored copy of `file`. */
  function NewSpec(t: Tree, file: Path, spec: string): string {
    var out, source := VendorPath(t, file), SourcePath(t, spec, file);
    if out.None? || source.None? then ""
    else
      var target := VendorPath(t, source.value);
      if target.None? then "" else Dotted(Relative(Dirname(out.value), target.value))
  }

  function Replacement(t: Tree, file: Path): string -> string { spec => NewSpec(t, file, spec) }

  function Rewritten(t: Tree, file: Path): string
    requires file in t.files
  {
    ImportText.Rewrite(t.files[file], true, Replacement(t, file))
  }

  /** Every file of the set has its copy, and nothing else is there. */
  ghost predicate Written(t: Tree, s: set<Path>, files: map<Path, string>) {
    && (forall f :: f in s ==> VendorPath(t, f).Some? && VendorPath(t, f).value in files)
    && (forall out :: out in files ==>
          exists f :: f in s && f in t.files && VendorPath(t, f) == Some(out) && files[out] == Rewritten(t, f))
  }

  /**
   * The files `build` writes for the closure: each at its vendor path, rewritten.
   * It fails exactly when the closure does or when a path in it has no place.
   */
  method Build(t: Tree, entries: seq<string>) returns (r: Option<map<Path, string>>, ghost s: set<Path>)
    ensures r.None? ==> forall c :: !(IsClosure(t, entries, c) && forall f :: f in c ==> VendorPath(t, f).Some?)
    ensures r.Some? ==>
              && IsClosure(t, entries, s)
              && Written(t, s, r.value)
  {
    hide VendorPath, Rewritten, Reachable;
    s := {};
    var closure := Closure(t, entries);
    if closure.None? { return None, {}; }
    s := closure.value;
    var files: map<Path, string> := map[];
    var remaining := closure.value;
    while remaining != {}
      invariant remaining <= s
      invariant forall f :: f in s && f !in remaining ==> VendorPath(t, f).Some? && VendorPath(t, f).value in files
      invariant forall out :: out in files ==>
                  exists f :: f in s && f in t.files && VendorPath(t, f) == Some(out) && files[out] == Rewritten(t, f)
      decreases remaining
    {
      var f :| f in remaining;
      var out := VendorPath(t, f);
      if out.None? {
        OneClosure(t, entries, s);
        return None, s;
      }
      assert Readable(t, f);
      files := files[out.value := Rewritten(t, f)];
      remaining := remaining - {f};
    }
    return Some(files), s;
  }

  lemma OneClosure(t: Tree, entries: seq<string>, s: set<Path>)
    requires IsClosure(t, entries, s)
    ensures forall c :: IsClosure(t, entries, c) ==> c == s
  {
    hide Reachable;
  }

  /** A file of some package below a scope, with no quote in its names. */
  predicate InScope(t: Tree, scope: string, file: Path) {
    && |file| >= |t.root| + 2 && file[..|t.root|] == t.root && file[|t.root|] == scope
    && ValidPath(file)
    && forall i :: |t.root| <= i < |file| ==> forall c :: c in file[i] ==> !ImportText.IsQuote(c)
  }

  /** A file of some package below some scope. */
  predicate Placed(t: Tree, file: Path) { |file| > |t.root| && InScope(t, file[|t.root|], file) }

  lemma {:induction false} CommonPrefixWhole(a: Path, b: Path)
    ensures CommonPrefix(a, a + b) == |a|
  {
    if a != [] {
      assert (a + b)[1..] == a[1..] + b;
      CommonPrefixWhole(a[1..], b);
    }
  }

  /** Inside a scope the vendor path is the vendor directory and what follows the scope. */
  lemma VendorPathInScope(t: Tree, scope: string, file: Path)
    requires InScope(t, scope, file)
    ensures VendorPath(t, file) == Some(t.vendor + file[|t.root| + 1..])
  {
    var n := |t.root|;
    CommonPrefixWhole(t.root, file[n..]);
    assert file == t.root + file[n..];
    assert Relative(t.root, file) == file[n..];
    assert file[n..][1..] == file[n + 1..];
    ResolveNames(t.vendor, file[n + 1..]);
  }

  /** Two files of the installed tree collide exactly when they differ in nothing but their scope. */
  lemma CollideIff(t: Tree, scope1: string, file1: Path, scope2: string, file2: Path)
    requires InScope(t, scope1, file1) && InScope(t, scope2, file2)
    ensures VendorPath(t, file1) == VendorPath(t, file2) <==> file1[|t.root| + 1..] == file2[|t.root| + 1..]
    ensures scope1 == scope2 ==> (VendorPath(t, file1) == VendorPath(t, file2) <==> file1 == file2)
  {
    var n := |t.root|;
    VendorPathInScope(t, scope1, file1);
    VendorPathInScope(t, scope2, file2);
    var a, b := file1[n + 1..], file2[n + 1..];
    assert (t.vendor + a)[|t.vendor|..] == a && (t.vendor + b)[|t.vendor|..] == b;
    assert file1 == t.root + [scope1] + a && file2 == t.root + [scope2] + b;
  }

  /** A file's name without the modules directory and its scope. */
  function BelowScope(t: Tree, file: Path): Path { if |file| > |t.root| then file[|t.root| + 1..] else [] }

  lemma PlacedCollideIff(t: Tree, f: Path, g: Path)
    requires Placed(t, f) && Placed(t, g)
    ensures VendorPath(t, f) == VendorPath(t, g) <==> BelowScope(t, f) == BelowScope(t, g)
  {
    CollideIff(t, f[|t.root|], f, g[|t.root|], g);
  }

  lemma {:induction false} JoinQuoteFree(parts: seq<string>)
    requires parts != [] && forall p :: p in parts ==> forall c :: c in p ==> !ImportText.IsQuote(c)
    ensures forall c :: c in Join(parts, '/') ==> !ImportText.IsQuote(c)
  {
    if |parts| > 1 {
      assert forall p :: p in parts[1..] ==> p in parts;
      JoinQuoteFree(parts[1..]);
    }
    assert parts[0] in parts;
  }

  /** The path between two vendored files reads as a specifier again: it is not empty and holds no quote. */
  lemma NewSpecIsGood(t: Tree, from: Path, tail: Path)
    requires ValidPath(t.vendor + tail) && t.vendor <= from
    requires forall p :: p in tail ==> forall c :: c in p ==> !ImportText.IsQuote(c)
    ensures ImportText.GoodSpec(Dotted(Relative(from, t.vendor + tail)))
  {
    var to := t.vendor + tail;
    var n := CommonPrefix(from, to);
    var segments := Relative(from, to);
    CommonPrefixAtLeast(t.vendor, from, to);
    UpsAreSegments(|from| - n);
    forall p | p in segments ensures forall c :: c in p ==> !ImportText.IsQuote(c) {
      if p in Ups(|from| - n) {
        assert p == ".." && forall c :: c in ".." ==> c == '.';
        assert forall c :: c in p ==> c == '.';
      } else {
        var i :| 0 <= i < |to[n..]| && to[n..][i] == p;
        assert p == to[n + i] == tail[n + i - |t.vendor|];
        assert p in tail;
      }
    }
    if segments != [] { JoinQuoteFree(segments); }
    var text := PathText(segments);
    assert forall c :: c in "./" ==> !ImportText.IsQuote(c);
    assert forall c :: c in "./" + text ==> c in "./" || c in text;
  }

  lemma {:induction false} CommonPrefixAtLeast(base: Path, a: Path, b: Path)
    requires base <= a && base <= b
    ensures CommonPrefix(a, b) >= |base|
  {
    if base != [] {
      assert a[0] == b[0] == base[0];
      assert base[1..] <= a[1..] && base[1..] <= b[1..];
      CommonPrefixAtLeast(base[1..], a[1..], b[1..]);
    }
  }

  lemma DottedHasDot(segments: seq<string>)
    ensures StartsWithDot(Dotted(segments))
  {
  }

  /** Where one edge of the installed graph goes in the vendored one. */
  lemma EdgePreserved(t: Tree, file: Path, spec: string)
    requires ValidTree(t) && Placed(t, file) && SourcePath(t, spec, file).Some?
    requires Placed(t, SourcePath(t, spec, file).value)
    ensures var target := SourcePath(t, spec, file).value;
            var out := VendorPath(t, file).value;
            && VendorPath(t, target).Some?
            && ImportText.GoodSpec(NewSpec(t, file, spec))
            && StartsWithDot(NewSpec(t, file, spec))
            && Resolve(Dirname(out), Split(NewSpec(t, file, spec), '/')) == VendorPath(t, target).value
            && LoaderFinds(out, NewSpec(t, file, spec)) == Found(out, VendorPath(t, target).value)
  {
    hide Relative, Resolve, Split, LoaderFinds, Found, SourcePath, ImportText.GoodSpec, Dotted;
    var n := |t.root|;
    var target := SourcePath(t, spec, file).value;
    VendorPathInScope(t, file[n], file);
    VendorPathInScope(t, target[n], target);
    var out, to := VendorPath(t, file).value, VendorPath(t, target).value;
    var tail := target[n + 1..];
    assert ValidPath(to);
    assert t.vendor <= Dirname(out) by {
      assert out == t.vendor + file[n + 1..] && |file[n + 1..]| >= 1;
      assert Dirname(out)[..|t.vendor|] == t.vendor;
    }
    forall p | p in tail ensures forall c :: c in p ==> !ImportText.IsQuote(c) {
      var i :| 0 <= i < |tail| && tail[i] == p;
      assert p == target[n + 1 + i];
    }
    NewSpecIsGood(t, Dirname(out), tail);
    DottedHasDot(Relative(Dirname(out), to));
    DottedLoads(out, to);
    DottedResolves(Dirname(out), to);
  }

  /**
   * Moving the closure preserves its import graph. For every file of it, the
   * vendored copy has the same number of specifiers; each one leads from the copy
   * to the vendored image of the file the original led to, for the script always
   * and for a module loader unless the way is hidden or marked; that image is the
   * copy of a file of the closure; and two files share one exactly when they
   * differ in nothing but their scope.
   */
  lemma ImportGraphPreserved(t: Tree, entries: seq<string>, s: set<Path>)
    requires ValidTree(t) && IsClosure(t, entries, s)
    requires forall f :: f in s ==> Placed(t, f)
    ensures forall f, g :: f in s && g in s ==>
              (VendorPath(t, f) == VendorPath(t, g) <==> BelowScope(t, f) == BelowScope(t, g))
    ensures forall f :: f in s ==> f in t.files && |ImportText.Specs(Rewritten(t, f), true)| == |SpecsIn(t, f)|
    ensures forall f, i :: f in s && 0 <= i < |SpecsIn(t, f)| ==> EdgeMoved(t, s, f, i)
  {
    hide Placed, VendorPath, BelowScope, Reachable, SourcePath, NewSpec;
    forall f, g | f in s && g in s
      ensures VendorPath(t, f) == VendorPath(t, g) <==> BelowScope(t, f) == BelowScope(t, g)
    {
      PlacedCollideIff(t, f, g);
    }
    forall f | f in s
      ensures f in t.files && |ImportText.Specs(Rewritten(t, f), true)| == |SpecsIn(t, f)|
      ensures forall i :: 0 <= i < |SpecsIn(t, f)| ==> EdgeMoved(t, s, f, i)
    {
      FileMoved(t, entries, s, f);
    }
  }

  ghost predicate EdgeMoved(t: Tree, s: set<Path>, file: Path, i: nat)
    requires i < |SpecsIn(t, file)|
  {
    && file in t.files && VendorPath(t, file).Some?
    && var source := SourcePath(t, SpecsIn(t, file)[i], file);
    && source.Some? && source.value in s && VendorPath(t, source.value).Some?
    && var moved := ImportText.Specs(Rewritten(t, file), true);
    && i < |moved| && StartsWithDot(moved[i])
    && var out, image := VendorPath(t, file).value, VendorPath(t, source.value).value;
    && Resolve(Dirname(out), Split(moved[i], '/')) == image
    && LoaderFinds(out, moved[i]) == Found(out, image)
  }

  lemma FileMoved(t: Tree, entries: seq<string>, s: set<Path>, file: Path)
    requires ValidTree(t) && IsClosure(t, entries, s) && file in s
    requires forall f :: f in s ==> Placed(t, f)
    ensures file in t.files && |ImportText.Specs(Rewritten(t, file), true)| == |SpecsIn(t, file)|
    ensures forall i :: 0 <= i < |SpecsIn(t, file)| ==> EdgeMoved(t, s, file, i)
  {
    hide Placed, VendorPath, Reachable, SourcePath, NewSpec, ImportText.Specs, ImportText.Rewrite, Resolve, Split;
    var specs := SpecsIn(t, file);
    assert Readable(t, file);
    forall i | 0 <= i < |specs|
      ensures SourcePath(t, specs[i], file).Some? && SourcePath(t, specs[i], file).value in s
    {
      var target := SourcePath(t, specs[i], file).value;
      assert target in Succ(t)(file);
      SuccessorReachable(Entries(t, entries), Succ(t), file, target);
    }
    forall i | 0 <= i < |specs| ensures ImportText.GoodSpec(Replacement(t, file)(specs[i])) {
      EdgePreserved(t, file, specs[i]);
    }
    ImportText.SpecsOfRewrite(t.files[file], true, Replacement(t, file));
    PlacedHasPath(t, file);
    forall i | 0 <= i < |specs| ensures EdgeMoved(t, s, file, i) {
      EdgePreserved(t, file, specs[i]);
    }
  }

  lemma PlacedHasPath(t: Tree, file: Path)
    requires Placed(t, file)
    ensures |file| >= |t.root| + 2 && VendorPath(t, file) == Some(t.vendor + file[|t.root| + 1..])
  {
    VendorPathInScope(t, file[|t.root|], file);
  }

  /** A specifier of a written file leads to a written file, and a module loader follows it as `Found` says. */
  predicate Leads(files: map<Path, string>, out: Path, spec: string) {
    var to := Resolve(Dirname(out), Split(spec, '/'));
    to in files && LoaderFinds(out, spec) == Found(out, to)
  }

  /** No other file of the set differs from this one in its scope alone. */
  predicate OnlyOfItsName(t: Tree, s: set<Path>, f: Path) {
    forall g :: g in s && BelowScope(t, g) == BelowScope(t, f) ==> g == f
  }

  /**
   * What `build` writes is closed: every specifier of every written file leads to
   * a written file. Every file of the closure that no other differs from in its
   * scope alone is written as its own copy, rewritten.
   */
  lemma BuiltGraphIsClosed(t: Tree, entries: seq<string>, s: set<Path>, files: map<Path, string>)
    requires ValidTree(t) && IsClosure(t, entries, s) && Written(t, s, files)
    requires forall f :: f in s ==> Placed(t, f)
    ensures forall f :: f in s ==> f in t.files && VendorPath(t, f).Some? && VendorPath(t, f).value in files
                                   && (OnlyOfItsName(t, s, f) ==> files[VendorPath(t, f).value] == Rewritten(t, f))
    ensures forall out, spec :: out in files && spec in ImportText.Specs(files[out], true) ==> Leads(files, out, spec)
  {
    hide IsClosure, Placed, VendorPath, Rewritten, Reachable, SpecsIn, EdgeMoved, Leads;
    ImportGraphPreserved(t, entries, s);
    forall f | f in s && OnlyOfItsName(t, s, f) ensures files[VendorPath(t, f).value] == Rewritten(t, f) {
      var g :| g in s && g in t.files && VendorPath(t, g) == VendorPath(t, f) && files[VendorPath(t, f).value] == Rewritten(t, g);
      PlacedCollideIff(t, f, g);
    }
    forall out, spec | out in files && spec in ImportText.Specs(files[out], true) ensures Leads(files, out, spec) {
      var f :| f in s && f in t.files && VendorPath(t, f) == Some(out) && files[out] == Rewritten(t, f);
      var i :| 0 <= i < |ImportText.Specs(files[out], true)| && ImportText.Specs(files[out], true)[i] == spec;
      MovedLeads(t, s, f, i, files);
    }
  }

  lemma MovedLeads(t: Tree, s: set<Path>, file: Path, i: nat, files: map<Path, string>)
    requires Written(t, s, files) && file in t.files && i < |SpecsIn(t, file)| && EdgeMoved(t, s, file, i)
    ensures i < |ImportText.Specs(Rewritten(t, file), true)|
    ensures Leads(files, VendorPath(t, file).value, ImportText.Specs(Rewritten(t, file), true)[i])
  {
    hide VendorPath, SourcePath, Rewritten, LoaderFinds, Found, Resolve, Split, SpecsIn;
  }

  /** With no hidden or marked name below the scopes, a module loader follows every specifier of every written file. */
  lemma NothingHidden(t: Tree, entries: seq<string>, s: set<Path>, files: map<Path, string>)
    requires ValidTree(t) && IsClosure(t, entries, s) && Written(t, s, files)
    requires forall f :: f in s ==> Placed(t, f)
    requires forall f, i :: f in s && |t.root| < i < |f| ==> !StartsWithDot(f[i]) && !Marked(f[i])
    ensures forall out, spec :: out in files && spec in ImportText.Specs(files[out], true) ==>
              LoaderFinds(out, spec).File? && LoaderFinds(out, spec).path in files
  {
    hide IsClosure, Placed, VendorPath, Rewritten, Reachable, LoaderFinds, Found, Resolve, Split, Marked;
    BuiltGraphIsClosed(t, entries, s, files);
    forall out, spec | out in files && spec in ImportText.Specs(files[out], true)
      ensures LoaderFinds(out, spec).File? && LoaderFinds(out, spec).path in files
    {
      var to := Resolve(Dirname(out), Split(spec, '/'));
      assert Leads(files, out, spec);
      var f :| f in s && VendorPath(t, f) == Some(out);
      var g :| g in s && VendorPath(t, g) == Some(to);
      NotHidden(t, f, g);
    }
  }

  lemma NotHidden(t: Tree, f: Path, g: Path)
    requires Placed(t, f) && Placed(t, g)
    requires forall i :: |t.root| < i < |g| ==> !StartsWithDot(g[i]) && !Marked(g[i])
    ensures VendorPath(t, f).Some? && VendorPath(t, g).Some?
    ensures Found(VendorPath(t, f).value, VendorPath(t, g).value) == File(VendorPath(t, g).value)
  {
    hide Placed, VendorPath, CommonPrefix, Ups, Marked;
    PlacedHasPath(t, f);
    PlacedHasPath(t, g);
    var out, to := VendorPath(t, f).value, VendorPath(t, g).value;
    var from := Dirname(out);
    assert from[..|t.vendor|] == t.vendor;
    var n := CommonPrefix(from, to);
    CommonPrefixAtLeast(t.vendor, from, to);
    UpsAreSegments(|from| - n);
    DotsUnmarked();
    var segments := Relative(from, to);
    forall i | 0 <= i < |segments| ensures !Marked(segments[i]) && (segments[i] == ".." || !StartsWithDot(segments[i])) {
      if i >= |from| - n {
        var k := n + i - (|from| - n);
        assert segments[i] == to[k] == g[|t.root| + 1 + k - |t.vendor|];
      }
    }
  }

  lemma DotsUnmarked()
    ensures !Marked("..")
  {
  }

  /** What a moved edge is. */
  lemma EdgeMovedMeans(t: Tree, s: set<Path>, file: Path, i: nat)
    requires i < |SpecsIn(t, file)| && EdgeMoved(t, s, file, i)
    ensures file in t.files && SourcePath(t, SpecsIn(t, file)[i], file).Some? && VendorPath(t, file).Some?
    ensures SourcePath(t, SpecsIn(t, file)[i], file).value in s
    ensures var source, out := SourcePath(t, SpecsIn(t, file)[i], file).value, VendorPath(t, file).value;
            var moved := ImportText.Specs(Rewritten(t, file), true);
            && i < |moved| && VendorPath(t, source) == Some(Resolve(Dirname(out), Split(moved[i], '/')))
            && LoaderFinds(out, moved[i]) == Found(out, VendorPath(t, source).value)
  {
    hide SourcePath, VendorPath, SpecsIn, Resolve, Split, LoaderFinds, Found, Rewritten, ImportText.Specs;
  }

  lemma LeadsMeans(files: map<Path, string>, out: Path, spec: string)
    requires Leads(files, out, spec)
    ensures var to := Resolve(Dirname(out), Split(spec, '/'));
            to in files && LoaderFinds(out, spec) == Found(out, to)
  {
    hide Resolve, Split, LoaderFinds, Found;
  }

  /** What a build has written. */
  lemma WrittenMeans(t: Tree, s: set<Path>, files: map<Path, string>)
    requires Written(t, s, files)
    ensures forall f :: f in s ==> VendorPath(t, f).Some? && VendorPath(t, f).value in files
    ensures forall out :: out in files ==>
              exists f :: f in s && f in t.files && VendorPath(t, f) == Some(out)
                          && files[out] == ImportText.Rewrite(t.files[f], true, Replacement(t, f))
  {
    hide VendorPath, ImportText.Rewrite;
  }
}
