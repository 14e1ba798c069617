/** The path functions of Node that scripts/vendor-fips.mjs uses, on absolute POSIX paths. */
module PosixPath {
  import opened Octet
  import opened Text

  /** The names from the root down. */
  type Path = seq<string>

  predicate IsName(s: string) { s != "" && s != "." && s != ".." && '/' !in s }

  predicate ValidPath(p: Path) { forall i :: 0 <= i < |p| ==> IsName(p[i]) }

  function DropLast(p: Path): Path { if p == [] then [] else p[..|p| - 1] }

  function Dirname(p: Path): Path { DropLast(p) }

  /** `resolve` and `join`: empty and dot segments stay, a double dot goes up, a name goes down. */
  function Resolve(base: Path, segments: seq<string>): Path
    decreases |segments|
  {
    if segments == [] then base
    else
      var s := segments[0];
      Resolve(if s == "" || s == "." then base else if s == ".." then DropLast(base) else base + [s], segments[1..])
  }

  /** Segments are followed one by one. */
  lemma ResolveMeans(base: Path, s: string, rest: seq<string>)
    ensures Resolve(base, []) == base
    ensures Resolve(base, [s] + rest)
            == if s == "" || s == "." then Resolve(base, rest)
               else if s == ".." then Resolve(if base == [] then [] else base[..|base| - 1], rest)
               else Resolve(base + [s], rest)
  {
    assert ([s] + rest)[1..] == rest;
  }

  function CommonPrefix(a: Path, b: Path): (n: nat)
    ensures n <= |a| && n <= |b| && a[..n] == b[..n]
  {
    if a == [] || b == [] || a[0] != b[0] then 0
    else
      var n := CommonPrefix(a[1..], b[1..]);
      assert a[..n + 1] == [a[0]] + a[1..][..n] && b[..n + 1] == [b[0]] + b[1..][..n];
      n + 1
  }

  function Ups(n: nat): (r: seq<string>)
    ensures |r| == n
  {
    if n == 0 then [] else [".."] + Ups(n - 1)
  }

  /** `relative`, as segments; none for the same path. */
  function Relative(from: Path, to: Path): seq<string> {
    var n := CommonPrefix(from, to);
    Ups(|from| - n) + to[n..]
  }

  /** From below a directory the relative path goes up to it, once for each name, and down again; it never goes further up. */
  lemma {:induction false} RelativeMeans(base: Path, a: Path, b: Path)
    requires a == [] || b == [] || a[0] != b[0]
    ensures Relative(base + a, base + b) == seq(|a|, _ => "..") + b
  {
    hide CommonPrefix;
    CommonPrefixIs(base, a, b);
    UpsAreSegments(|a|);
    assert Ups(|a|) == seq(|a|, _ => "..");
    assert (base + b)[|base|..] == b;
  }

  lemma {:induction false} CommonPrefixIs(base: Path, a: Path, b: Path)
    requires a == [] || b == [] || a[0] != b[0]
    ensures CommonPrefix(base + a, base + b) == |base|
  {
    if base == [] {
      assert base + a == a && base + b == b;
    } else {
      assert (base + a)[1..] == base[1..] + a && (base + b)[1..] == base[1..] + b;
      CommonPrefixIs(base[1..], a, b);
    }
  }

  lemma {:induction false} ResolveConcat(base: Path, a: seq<string>, b: seq<string>)
    ensures Resolve(base, a + b) == Resolve(Resolve(base, a), b)
    decreases |a|
  {
    if a == [] {
      assert a + b == b;
    } else {
      var s := a[0];
      var next := if s == "" || s == "." then base else if s == ".." then DropLast(base) else base + [s];
      assert (a + b)[1..] == a[1..] + b;
      ResolveConcat(next, a[1..], b);
    }
  }

  lemma {:induction false} ResolveNames(base: Path, names: Path)
    requires ValidPath(names)
    ensures Resolve(base, names) == base + names
    decreases |names|
  {
    if names != [] {
      assert IsName(names[0]);
      ResolveNames(base + [names[0]], names[1..]);
      assert base + [names[0]] + names[1..] == base + names;
    } else {
      assert base + names == base;
    }
  }

  lemma {:induction false} ResolveUps(base: Path, n: nat)
    requires n <= |base|
    ensures Resolve(base, Ups(n)) == base[..|base| - n]
    decreases n
  {
    if n > 0 {
      var up := base[..|base| - 1];
      ResolveUps(up, n - 1);
      assert Ups(n)[1..] == Ups(n - 1);
      assert up[..|up| - (n - 1)] == base[..|base| - n];
    }
  }

  /** Following the relative path arrives. */
  lemma ResolveRelative(from: Path, to: Path)
    requires ValidPath(to)
    ensures Resolve(from, Relative(from, to)) == to
  {
    var n := CommonPrefix(from, to);
    ResolveConcat(from, Ups(|from| - n), to[n..]);
    ResolveUps(from, |from| - n);
    ResolveNames(from[..n], to[n..]);
    assert to[..n] + to[n..] == to;
  }

  /** A relative path as text: empty for no segments. */
  function PathText(segments: seq<string>): string { if segments == [] then "" else Join(segments, '/') }

  predicate StartsWithDot(s: string) { s != "" && s[0] == '.' }

  /** The text a rewritten import carries: a path with no leading dot is given one. */
  function Dotted(segments: seq<string>): string {
    var text := PathText(segments);
    if StartsWithDot(text) then text else "./" + text
  }

  lemma {:induction false} UpsAreSegments(n: nat)
    ensures forall i :: 0 <= i < n ==> Ups(n)[i] == ".."
  {
    if n > 0 { UpsAreSegments(n - 1); }
  }

  lemma RelativeSegments(from: Path, to: Path)
    requires ValidPath(to)
    ensures forall p :: p in Relative(from, to) ==> '/' !in p && (p == ".." || IsName(p))
  {
    var n := CommonPrefix(from, to);
    UpsAreSegments(|from| - n);
    forall p | p in Relative(from, to) ensures '/' !in p && (p == ".." || IsName(p)) {
      if p in Ups(|from| - n) {
        assert p == "..";
      } else {
        assert p in to[n..] && p in to;
      }
    }
  }

  /** Split again and resolved from the importing directory, the text names the target. */
  lemma DottedResolves(from: Path, to: Path)
    requires ValidPath(to)
    ensures Resolve(from, Split(Dotted(Relative(from, to)), '/')) == to
  {
    var segments := Relative(from, to);
    RelativeSegments(from, to);
    ResolveRelative(from, to);
    var text := PathText(segments);
    if segments != [] { SplitJoin(segments, '/'); }
    if !StartsWithDot(text) {
      IndexOfFirst(".", '/', text);
      assert "." + ['/'] + text == "./" + text;
      assert ("./" + text)[..1] == "." && ("./" + text)[2..] == text;
      var rest := Split(text, '/');
      assert Split("./" + text, '/') == ["."] + rest;
      ResolveConcat(from, ["."], rest);
      assert Resolve(from, ["."]) == from by { assert ["."][1..] == []; }
      if segments == [] {
        assert rest == [""];
        assert Resolve(from, [""]) == from by { assert [""][1..] == []; }
      }
    }
  }

  /** Whether the module loader takes a specifier for a relative path at all. */
  predicate IsRelativeSpecifier(s: string) {
    s == "." || s == ".." || (|s| >= 2 && s[..2] == "./") || (|s| >= 3 && s[..3] == "../")
  }

  /**
   * The rewritten specifier is a relative one for the module loader exactly
   * when the path does not begin with a name that itself begins with a dot.
   */
  lemma DottedIsRelativeIff(from: Path, to: Path)
    requires ValidPath(to)
    ensures var segments := Relative(from, to);
            IsRelativeSpecifier(Dotted(segments)) <==> segments == [] || segments[0] == ".." || !StartsWithDot(segments[0])
  {
    hide Relative, IsName;
    var segments := Relative(from, to);
    RelativeSegments(from, to);
    var text := PathText(segments);
    if segments != [] {
      var s := segments[0];
      assert s in segments;
      var rest := if |segments| == 1 then "" else "/" + Join(segments[1..], '/');
      assert text == s + rest;
      FirstNameDecides(s, rest);
    }
  }

  /** The first name of a way decides whether its text is a relative specifier. */
  lemma FirstNameDecides(s: string, rest: string)
    requires '/' !in s && (s == ".." || IsName(s)) && (rest == "" || rest[0] == '/')
    ensures var text := s + rest;
            && (StartsWithDot(text) <==> StartsWithDot(s))
            && (StartsWithDot(s) ==> (IsRelativeSpecifier(text) <==> s == ".."))
  {
    var text := s + rest;
    assert text[0] == s[0];
    if s == ".." {
      assert text == ".." || text[..3] == "../";
    } else if s[0] == '.' {
      assert |s| >= 2 && s[1] in s && text[1] == s[1] && text[1] != '/';
      if s[1] == '.' {
        assert |s| >= 3 && s[2] in s && text[2] == s[2];
      }
    }
  }

  /** A character that is not itself in the path of a URL: a delimiter, an escape, or one that parsing may strip. */
  predicate IsUrlMark(c: char) { c in "#?%\\" || c <= ' ' }

  predicate Marked(s: string) { exists i :: 0 <= i < |s| && IsUrlMark(s[i]) }

  /** What a module loader takes a specifier for. A relative URL with marks in it is told apart and not read further. */
  datatype Loaded = File(path: Path) | MarkedUrl | Package

  function LoaderFinds(from: Path, spec: string): Loaded {
    if !IsRelativeSpecifier(spec) then Package
    else if Marked(spec) then MarkedUrl
    else File(Resolve(Dirname(from), Split(spec, '/')))
  }

  /** From one file to another the way begins with a name that begins with a dot. */
  predicate BeginsHidden(from: Path, to: Path) {
    var segments := Relative(Dirname(from), to);
    segments != [] && segments[0] != ".." && StartsWithDot(segments[0])
  }

  /** Some name on the way has a mark in it. */
  predicate MarkedWay(from: Path, to: Path) {
    var segments := Relative(Dirname(from), to);
    exists i :: 0 <= i < |segments| && Marked(segments[i])
  }

  /** What a loader in one file finds where another is meant. */
  function Found(from: Path, to: Path): Loaded {
    if BeginsHidden(from, to) then Package else if MarkedWay(from, to) then MarkedUrl else File(to)
  }

  lemma MarkedConcat(a: string, b: string)
    ensures Marked(a + b) <==> Marked(a) || Marked(b)
  {
    var s := a + b;
    if i :| 0 <= i < |a| && IsUrlMark(a[i]) { assert s[i] == a[i]; }
    if i :| 0 <= i < |b| && IsUrlMark(b[i]) { assert s[|a| + i] == b[i]; }
  }

  lemma {:induction false} MarkedJoin(parts: seq<string>)
    requires parts != []
    ensures Marked(Join(parts, '/')) <==> exists i :: 0 <= i < |parts| && Marked(parts[i])
  {
    hide Marked;
    if |parts| > 1 {
      var rest := parts[1..];
      MarkedJoin(rest);
      MarkedConcat(parts[0] + ['/'], Join(rest, '/'));
      MarkedConcat(parts[0], ['/']);
      SlashUnmarked();
      if i :| 0 < i < |parts| && Marked(parts[i]) { assert rest[i - 1] == parts[i]; }
      if i :| 0 <= i < |rest| && Marked(rest[i]) { assert parts[i + 1] == rest[i]; }
    }
  }

  lemma SlashUnmarked()
    ensures !Marked("/") && !Marked(['/']) && !Marked("./") && !Marked("")
  {
  }

  /** A loader follows the rewritten specifier to the target, but for a hidden first name or a mark on the way. */
  lemma DottedLoads(from: Path, to: Path)
    requires ValidPath(to)
    ensures LoaderFinds(from, Dotted(Relative(Dirname(from), to))) == Found(from, to)
  {
    hide Relative, IsRelativeSpecifier, Resolve, Split, Marked, Join;
    var segments := Relative(Dirname(from), to);
    DottedIsRelativeIff(Dirname(from), to);
    DottedResolves(Dirname(from), to);
    SlashUnmarked();
    if segments != [] { MarkedJoin(segments); }
    MarkedConcat("./", PathText(segments));
  }

  /** Both exceptions occur: `.x.js` beside its importer, and a name with a mark in it. */
  lemma LoaderExceptions()
    ensures Found(["v", "a.js"], ["v", ".x.js"]) == Package
    ensures Found(["v", "a.js"], ["v", "x#y.js"]) == MarkedUrl
  {
    var from, hidden, marked := ["v", "a.js"], ["v", ".x.js"], ["v", "x#y.js"];
    assert Dirname(from) == ["v"];
    assert ["v"][1..] == [] && hidden[1..] == [".x.js"] && marked[1..] == ["x#y.js"];
    assert CommonPrefix(["v"], hidden) == 1 && CommonPrefix(["v"], marked) == 1;
    assert Relative(["v"], hidden) == [".x.js"] && Relative(["v"], marked) == ["x#y.js"];
    assert ".x.js" != "..";
    assert "x#y.js"[1] == '#' && Marked("x#y.js");
  }

  /** What a loader makes of a specifier: a package unless it is a dot or two, alone or before a slash; then a URL, told apart when a character of it means more there. */
  lemma LoaderMeans(from: Path, spec: string)
    ensures var relative := spec == "." || spec == ".." || "./" <= spec || "../" <= spec;
            var marked := exists c :: c in spec && (c == '#' || c == '?' || c == '%' || c == '\\' || c as int <= 32);
            LoaderFinds(from, spec) == if !relative then Package
                                       else if marked then MarkedUrl
                                       else File(Resolve(if from == [] then [] else from[..|from| - 1], Split(spec, '/')))
  {
    hide Resolve, Split, Marked, IsRelativeSpecifier;
    MarkedIff(spec);
    RelativeIff(spec);
  }

  lemma MarkedIff(s: string)
    ensures Marked(s) <==> exists c :: c in s && (c == '#' || c == '?' || c == '%' || c == '\\' || c as int <= 32)
  {
    assert forall c :: IsUrlMark(c) <==> c == '#' || c == '?' || c == '%' || c == '\\' || c as int <= 32;
    if Marked(s) {
      var i :| 0 <= i < |s| && IsUrlMark(s[i]);
      assert s[i] in s;
    }
  }

  lemma RelativeIff(s: string)
    ensures IsRelativeSpecifier(s) <==> s == "." || s == ".." || "./" <= s || "../" <= s
  {
    assert |s| >= 2 ==> s[..2] == [s[0], s[1]];
    assert |s| >= 3 ==> s[..3] == [s[0], s[1], s[2]];
  }
}
