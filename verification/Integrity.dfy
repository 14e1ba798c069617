/**
 * The signed manifest of the FIPS module's directory: the builder
 * (scripts/build-fips-manifest.mjs) and the test at import (src/fips/index.js).
 */
module Integrity {
  import opened Octet
  import opened Text
  import Hex

  const MANIFEST := "integrity.json"
  const SIGNATURE := "integrity.json.sig"

  datatype Node = File(content: Octets) | Dir(entries: Entries)

  datatype Entry = Entry(name: string, node: Node)

  type Entries = seq<Entry>

  predicate HasName(entries: Entries, name: string) {
    exists i :: 0 <= i < |entries| && entries[i].name == name
  }

  /** What a file system guarantees: names differ within a directory and hold no separator. */
  predicate WellFormed(entries: Entries) {
    entries == [] ||
    (&& '/' !in entries[0].name
     && !HasName(entries[1..], entries[0].name)
     && (entries[0].node.Dir? ==> WellFormed(entries[0].node.entries))
     && WellFormed(entries[1..]))
  }

  function Lookup(entries: Entries, path: seq<string>): Option<Octets>
    decreases path, entries
  {
    if path == [] || entries == [] then None
    else if entries[0].name != path[0] then Lookup(entries[1..], path)
    else
      match entries[0].node
      case File(content) => if |path| == 1 then Some(content) else None
      case Dir(sub) => Lookup(sub, path[1..])
  }

  /** The slash-separated names of every file below a directory, in reading order. */
  function FilesIn(entries: Entries, prefix: seq<string>): seq<string>
    decreases entries
  {
    if entries == [] then []
    else NodeFiles(entries[0].node, prefix + [entries[0].name]) + FilesIn(entries[1..], prefix)
  }

  function NodeFiles(node: Node, here: seq<string>): seq<string>
    requires here != []
    decreases node
  {
    match node
    case File(_) => [Join(here, '/')]
    case Dir(sub) => FilesIn(sub, here)
  }

  method ListFiles(entries: Entries, prefix: seq<string>) returns (out: seq<string>)
    ensures out == FilesIn(entries, prefix)
    decreases entries
  {
    hide FilesIn, Join;
    out := [];
    assert entries[0..] == entries;
    for i := 0 to |entries|
      invariant out + FilesIn(entries[i..], prefix) == FilesIn(entries, prefix)
    {
      ListStep(entries, i, prefix);
      var found := ListNode(entries[i].node, prefix + [entries[i].name]);
      out := out + found;
    }
    ListStep(entries, |entries|, prefix);
  }

  method ListNode(node: Node, here: seq<string>) returns (out: seq<string>)
    requires here != []
    ensures out == NodeFiles(node, here)
    decreases node
  {
    hide FilesIn, Join;
    match node
    case File(_) =>
      out := [Join(here, '/')];
    case Dir(sub) =>
      out := ListFiles(sub, here);
  }

  lemma ListStep(entries: Entries, i: nat, prefix: seq<string>)
    requires i <= |entries|
    ensures FilesIn(entries[i..], prefix)
            == if i == |entries| then []
               else NodeFiles(entries[i].node, prefix + [entries[i].name]) + FilesIn(entries[i + 1..], prefix)
  {
    hide NodeFiles;
    if i < |entries| {
      assert entries[i..][0] == entries[i] && entries[i..][1..] == entries[i + 1..];
    }
  }

  predicate Slashless(path: seq<string>) {
    forall p :: p in path ==> '/' !in p
  }

  lemma {:induction false} LookupHasName(entries: Entries, path: seq<string>)
    requires Lookup(entries, path).Some?
    ensures HasName(entries, path[0])
  {
    if entries[0].name != path[0] {
      LookupHasName(entries[1..], path);
      var i :| 0 <= i < |entries| - 1 && entries[1..][i].name == path[0];
      assert entries[i + 1].name == path[0];
    }
  }

  /** Every name listed is the name of a file that can be read. */
  lemma {:induction false} ListedIsFile(entries: Entries, prefix: seq<string>, f: string)
      returns (path: seq<string>)
    requires WellFormed(entries) && f in FilesIn(entries, prefix)
    ensures path != [] && Slashless(path)
    ensures f == Join(prefix + path, '/') && Lookup(entries, path).Some?
    decreases entries
  {
    var here := prefix + [entries[0].name];
    if f in FilesIn(entries[1..], prefix) {
      path := ListedIsFile(entries[1..], prefix, f);
      LookupHasName(entries[1..], path);
    } else {
      match entries[0].node
      case File(_) =>
        path := [entries[0].name];
      case Dir(sub) =>
        var below := ListedIsFile(sub, here, f);
        path := [entries[0].name] + below;
        assert here + below == prefix + path && path[1..] == below;
    }
  }

  /** Every file that can be read is listed. */
  lemma {:induction false} FileIsListed(entries: Entries, prefix: seq<string>, path: seq<string>)
    requires WellFormed(entries) && Lookup(entries, path).Some?
    ensures Slashless(path) && Join(prefix + path, '/') in FilesIn(entries, prefix)
    decreases entries
  {
    if entries[0].name != path[0] {
      FileIsListed(entries[1..], prefix, path);
    } else {
      match entries[0].node
      case File(_) =>
        assert path == [entries[0].name];
      case Dir(sub) =>
        var here := prefix + [entries[0].name];
        FileIsListed(sub, here, path[1..]);
        assert here + path[1..] == prefix + path;
        assert path == [path[0]] + path[1..];
    }
  }

  /** The listing is exactly the set of readable names. */
  lemma ListedIffFile(root: Entries, f: string)
    requires WellFormed(root)
    ensures f in FilesIn(root, []) <==> Lookup(root, Split(f, '/')).Some?
  {
    if f in FilesIn(root, []) {
      var path := ListedIsFile(root, [], f);
      assert [] + path == path;
      SplitJoin(path, '/');
    }
    if Lookup(root, Split(f, '/')).Some? {
      FileIsListed(root, [], Split(f, '/'));
      assert [] + Split(f, '/') == Split(f, '/');
      JoinSplit(f, '/');
    }
  }

  lemma ListedAreFiles(root: Entries)
    requires WellFormed(root)
    ensures forall f :: f in FilesIn(root, []) <==> Lookup(root, Split(f, '/')).Some?
  {
    forall f ensures f in FilesIn(root, []) <==> Lookup(root, Split(f, '/')).Some? { ListedIffFile(root, f); }
  }

  datatype Manifest = Manifest(version: Option<string>, files: Option<map<string, string>>)

  /** The primitives and decoders the test relies on. */
  datatype Context = Context(
    sha256: Octets -> Octets,
    verify: (Octets, Octets, Octets) -> bool,
    parse: Octets -> Option<Manifest>,
    text: Octets -> string,
    releaseKey: Octets)

  datatype Failure = NoSignedManifest | InvalidHex | BadSignature | NotJson | FilesDiffer | DigestDiffers(file: string)

  /** The files the digests cover: all but the two top-level integrity files. */
  function Covered(files: seq<string>): (r: seq<string>)
    ensures forall f :: f in r <==> f in files && f != MANIFEST && f != SIGNATURE
  {
    if files == [] then []
    else (if files[0] != MANIFEST && files[0] != SIGNATURE then [files[0]] else []) + Covered(files[1..])
  }

  function DigestAt(ctx: Context, root: Entries, f: string): Option<string> {
    var content := Lookup(root, Split(f, '/'));
    if content.None? then None else Some(Hex.Print(ctx.sha256(content.value)))
  }

  /** Path to digest over every covered file of a directory. */
  function Measured(ctx: Context, root: Entries): (m: map<string, string>)
    requires WellFormed(root)
    ensures forall f :: f in m <==> DigestAt(ctx, root, f).Some? && f != MANIFEST && f != SIGNATURE
    ensures forall f :: f in m ==> m[f] == DigestAt(ctx, root, f).value
  {
    ListedAreFiles(root);
    map f | f in Covered(FilesIn(root, [])) :: DigestAt(ctx, root, f).value
  }

  method BuildManifest(ctx: Context, root: Entries, version: string) returns (manifest: Manifest)
    requires WellFormed(root)
    ensures manifest == Manifest(Some(version), Some(Measured(ctx, root)))
  {
    hide WellFormed, Lookup, FilesIn, Split, Hex.Print;
    var listed := ListFiles(root, []);
    var names := Covered(listed);
    var files: map<string, string> := map[];
    for i := 0 to |names|
      invariant forall f :: f in files <==> f in names[..i]
      invariant forall f :: f in files ==> f in Measured(ctx, root) && files[f] == Measured(ctx, root)[f]
    {
      var f := names[i];
      ListedIffFile(root, f);
      assert names[..i + 1] == names[..i] + [f];
      var content := Lookup(root, Split(f, '/'));
      files := files[f := Hex.Print(ctx.sha256(content.value))];
    }
    forall f | f in Measured(ctx, root) ensures f in files {
      ListedIffFile(root, f);
      assert f in names[..|names|];
    }
    assert files == Measured(ctx, root);
    return Manifest(Some(version), Some(files));
  }

  /** What an installed directory must satisfy, stated without the test's own steps. */
  predicate Authentic(ctx: Context, root: Entries, manifest: Manifest)
    requires WellFormed(root)
  {
    var m, s := Lookup(root, [MANIFEST]), Lookup(root, [SIGNATURE]);
    && m.Some? && s.Some?
    && var sig := Hex.Parse(Trim(ctx.text(s.value)));
    && sig.Some?
    && ctx.verify(sig.value, m.value, ctx.releaseKey)
    && ctx.parse(m.value) == Some(manifest)
    && (if manifest.files.Some? then manifest.files.value else map[]) == Measured(ctx, root)
  }

  method IntegrityTest(ctx: Context, root: Entries) returns (r: Result<Manifest, Failure>)
    requires WellFormed(root)
    ensures r.Ok? ==> Authentic(ctx, root, r.value)
    ensures r.Err? ==> forall m :: !Authentic(ctx, root, m)
  {
    hide WellFormed, Lookup, Measured, Trim, Hex.Parse;
    var manifestBytes := Lookup(root, [MANIFEST]);
    var signatureBytes := Lookup(root, [SIGNATURE]);
    if manifestBytes.None? || signatureBytes.None? { return Err(NoSignedManifest); }
    var signature := Hex.Parse(Trim(ctx.text(signatureBytes.value)));
    if signature.None? { return Err(InvalidHex); }
    if !ctx.verify(signature.value, manifestBytes.value, ctx.releaseKey) { return Err(BadSignature); }
    var manifest := ctx.parse(manifestBytes.value);
    if manifest.None? { return Err(NotJson); }
    var files := if manifest.value.files.Some? then manifest.value.files.value else map[];
    var failure := CompareFiles(ctx, root, files);
    if failure.Some? { return Err(failure.value); }
    return Ok(manifest.value);
  }

  /** The file checks: the same names, then the same digest for every name. */
  method CompareFiles(ctx: Context, root: Entries, files: map<string, string>) returns (failure: Option<Failure>)
    requires WellFormed(root)
    ensures failure.None? <==> files == Measured(ctx, root)
  {
    hide WellFormed, Lookup, FilesIn, Split, Hex.Print;
    var listed := ListFiles(root, []);
    var present := Covered(listed);
    ghost var measured := Measured(ctx, root);
    forall f ensures f in present <==> f in measured { ListedIffFile(root, f); }
    if (exists f :: f in files && f !in present) || (exists f :: f in present && f !in files) {
      return Some(FilesDiffer);
    }
    assert files.Keys == measured.Keys;
    var remaining := files.Keys;
    while remaining != {}
      invariant remaining <= files.Keys
      invariant forall f :: f in files && f !in remaining ==> files[f] == measured[f]
      decreases remaining
    {
      var f :| f in remaining;
      assert f in measured;
      var content := Lookup(root, Split(f, '/'));
      if Hex.Print(ctx.sha256(content.value)) != files[f] { return Some(DigestDiffers(f)); }
      remaining := remaining - {f};
    }
    return None;
  }

  /** The manifest an authentic directory holds, or nothing. */
  ghost function Verdict(ctx: Context, root: Entries): (r: Option<Manifest>)
    requires WellFormed(root)
    ensures forall m :: r == Some(m) <==> Authentic(ctx, root, m)
  {
    if exists m :: Authentic(ctx, root, m) then
      var m :| Authentic(ctx, root, m);
      Some(m)
    else None
  }

  /** Writing a file at the top level: the old one is replaced, a new one is added. */
  function WriteFile(root: Entries, name: string, content: Octets): Entries {
    if root == [] then [Entry(name, File(content))]
    else if root[0].name == name then [Entry(name, File(content))] + root[1..]
    else [root[0]] + WriteFile(root[1..], name, content)
  }

  lemma {:induction false} WriteFileNames(root: Entries, name: string, content: Octets, other: string)
    ensures HasName(WriteFile(root, name, content), other) <==> other == name || HasName(root, other)
  {
    var w := WriteFile(root, name, content);
    if root == [] {
      assert w[0].name == name;
    } else if root[0].name == name {
      assert w[1..] == root[1..];
      assert forall i :: 0 < i < |root| ==> w[i] == root[i];
      assert w[0].name == name;
    } else {
      WriteFileNames(root[1..], name, content, other);
      HasNameCons(root, other);
      HasNameCons(w, other);
    }
  }

  lemma HasNameCons(entries: Entries, name: string)
    requires entries != []
    ensures HasName(entries, name) <==> entries[0].name == name || HasName(entries[1..], name)
  {
    if HasName(entries[1..], name) {
      var i :| 0 <= i < |entries| - 1 && entries[1..][i].name == name;
      assert entries[i + 1].name == name;
    }
    if HasName(entries, name) && entries[0].name != name {
      var i :| 0 <= i < |entries| && entries[i].name == name;
      assert entries[1..][i - 1].name == name;
    }
  }

  lemma {:induction false} WriteFileWellFormed(root: Entries, name: string, content: Octets)
    requires WellFormed(root) && '/' !in name
    ensures WellFormed(WriteFile(root, name, content))
  {
    if root != [] && root[0].name != name {
      WriteFileWellFormed(root[1..], name, content);
      WriteFileNames(root[1..], name, content, root[0].name);
    }
  }

  predicate IsDirectory(root: Entries, name: string) {
    root != [] && ((root[0].name == name && root[0].node.Dir?) || IsDirectory(root[1..], name))
  }

  /** Only the file written changes. */
  lemma {:induction false} LookupWritten(root: Entries, name: string, content: Octets, path: seq<string>)
    requires !IsDirectory(root, name)
    ensures Lookup(WriteFile(root, name, content), path)
         == if path == [name] then Some(content) else Lookup(root, path)
  {
    if root != [] && root[0].name != name {
      LookupWritten(root[1..], name, content, path);
    } else if path != [] && path[0] == name && |path| == 1 {
      assert path == [name];
    }
  }

  lemma {:induction false} WriteFileDirectories(root: Entries, name: string, content: Octets, other: string)
    requires !IsDirectory(root, other)
    ensures !IsDirectory(WriteFile(root, name, content), other)
  {
    if root != [] && root[0].name != name { WriteFileDirectories(root[1..], name, content, other); }
  }

  /** Neither integrity file is measured, so writing one changes no digest. */
  lemma WritingIntegrityFileKeepsMeasure(ctx: Context, root: Entries, name: string, content: Octets)
    requires WellFormed(root) && !IsDirectory(root, name)
    requires name == MANIFEST || name == SIGNATURE
    ensures WellFormed(WriteFile(root, name, content))
    ensures Measured(ctx, WriteFile(root, name, content)) == Measured(ctx, root)
  {
    WriteFileWellFormed(root, name, content);
    forall f | f != name ensures DigestAt(ctx, WriteFile(root, name, content), f) == DigestAt(ctx, root, f) {
      LookupWritten(root, name, content, Split(f, '/'));
      JoinSplit(f, '/');
    }
  }

  /** A directory released the way the builder and the signer release it. */
  function Release(root: Entries, manifestBytes: Octets, signatureBytes: Octets): Entries {
    WriteFile(WriteFile(root, MANIFEST, manifestBytes), SIGNATURE, signatureBytes)
  }

  /**
   * For every directory tree, the manifest the builder writes for it, correctly
   * signed, is accepted in the released tree.
   */
  lemma ReleaseIsAuthentic(ctx: Context, root: Entries, version: string,
                           manifestBytes: Octets, signatureBytes: Octets, signature: Octets)
    requires WellFormed(root) && !IsDirectory(root, MANIFEST) && !IsDirectory(root, SIGNATURE)
    requires ctx.parse(manifestBytes) == Some(Manifest(Some(version), Some(Measured(ctx, root))))
    requires Hex.Parse(Trim(ctx.text(signatureBytes))) == Some(signature)
    requires ctx.verify(signature, manifestBytes, ctx.releaseKey)
    ensures WellFormed(Release(root, manifestBytes, signatureBytes))
    ensures Authentic(ctx, Release(root, manifestBytes, signatureBytes),
                      Manifest(Some(version), Some(Measured(ctx, root))))
  {
    var withManifest := WriteFile(root, MANIFEST, manifestBytes);
    WritingIntegrityFileKeepsMeasure(ctx, root, MANIFEST, manifestBytes);
    WriteFileDirectories(root, MANIFEST, manifestBytes, SIGNATURE);
    WritingIntegrityFileKeepsMeasure(ctx, withManifest, SIGNATURE, signatureBytes);
    LookupWritten(root, MANIFEST, manifestBytes, [MANIFEST]);
    LookupWritten(withManifest, SIGNATURE, signatureBytes, [MANIFEST]);
    LookupWritten(withManifest, SIGNATURE, signatureBytes, [SIGNATURE]);
  }

  /**
   * Any later tree that keeps the two integrity files is accepted exactly when
   * no covered file was added, removed or given another digest.
   */
  lemma TamperingIsRefused(ctx: Context, root: Entries, later: Entries, manifest: Manifest)
    requires WellFormed(root) && WellFormed(later) && Authentic(ctx, root, manifest)
    requires Lookup(later, [MANIFEST]) == Lookup(root, [MANIFEST])
    requires Lookup(later, [SIGNATURE]) == Lookup(root, [SIGNATURE])
    ensures Verdict(ctx, later).Some? <==>
            forall f :: f != MANIFEST && f != SIGNATURE ==> DigestAt(ctx, later, f) == DigestAt(ctx, root, f)
  {
    hide WellFormed, Lookup, Hex.Parse, Trim, Split;
    var before, after := Measured(ctx, root), Measured(ctx, later);
    if Verdict(ctx, later).Some? {
      assert Authentic(ctx, later, Verdict(ctx, later).value);
      assert after == before;
      forall f | f != MANIFEST && f != SIGNATURE ensures DigestAt(ctx, later, f) == DigestAt(ctx, root, f) {
        assert f in after <==> f in before;
      }
    }
    if forall f :: f != MANIFEST && f != SIGNATURE ==> DigestAt(ctx, later, f) == DigestAt(ctx, root, f) {
      assert after == before;
      assert Authentic(ctx, later, manifest);
    }
  }

  // ── The test in terms of names and contents alone ────────────────────────

  /** A path is followed entry by entry: a name leads to its file's content, or into its directory. */
  lemma {:induction false} LookupMeans(entries: Entries, i: nat, rest: seq<string>)
    requires WellFormed(entries) && i < |entries|
    ensures Lookup(entries, [entries[i].name] + rest)
            == if entries[i].node.Dir? then Lookup(entries[i].node.entries, rest)
               else if rest == [] then Some(entries[i].node.content) else None
  {
    var path := [entries[i].name] + rest;
    assert path[1..] == rest;
    if i > 0 {
      assert entries[1..][i - 1] == entries[i];
      LookupMeans(entries[1..], i - 1, rest);
    }
  }

  lemma NoSuchEntry(entries: Entries, path: seq<string>)
    requires path == [] || !HasName(entries, path[0])
    ensures Lookup(entries, path).None?
  {
    if Lookup(entries, path).Some? { LookupHasName(entries, path); }
  }

  /**
   * An authentic directory holds both integrity files; the signature, hex text
   * with white space around it at most, verifies over the manifest's bytes under
   * the release key; and the manifest names exactly the other files, each with
   * the digest of its content in hex.
   */
  lemma AuthenticMeans(ctx: Context, root: Entries, manifest: Manifest)
    requires WellFormed(root)
    ensures var m, s := Lookup(root, ["integrity.json"]), Lookup(root, ["integrity.json.sig"]);
            var files := if manifest.files.Some? then manifest.files.value else map[];
            Authentic(ctx, root, manifest) <==>
              && m.Some? && s.Some?
              && Hex.Parse(Trim(ctx.text(s.value))).Some?
              && ctx.verify(Hex.Parse(Trim(ctx.text(s.value))).value, m.value, ctx.releaseKey)
              && ctx.parse(m.value) == Some(manifest)
              && (forall f :: f in files <==> f != "integrity.json" && f != "integrity.json.sig"
                                              && Lookup(root, Split(f, '/')).Some?)
              && (forall f :: f in files ==> files[f] == Hex.Print(ctx.sha256(Lookup(root, Split(f, '/')).value)))
  {
    hide WellFormed, Lookup, Hex.Parse, Hex.Print, Trim, Split, FilesIn;
    assert MANIFEST == "integrity.json" && SIGNATURE == "integrity.json.sig";
    var files := if manifest.files.Some? then manifest.files.value else map[];
    MeasuredMeans(ctx, root, files);
  }

  lemma MeasuredMeans(ctx: Context, root: Entries, files: map<string, string>)
    requires WellFormed(root)
    ensures files == Measured(ctx, root) <==>
            && (forall f :: f in files <==> f != "integrity.json" && f != "integrity.json.sig"
                                            && Lookup(root, Split(f, '/')).Some?)
            && (forall f :: f in files ==> files[f] == Hex.Print(ctx.sha256(Lookup(root, Split(f, '/')).value)))
  {
    hide WellFormed, Lookup, Hex.Print, Split, FilesIn;
    var measured := Measured(ctx, root);
    if files == measured {
      forall f ensures f in files <==> f != "integrity.json" && f != "integrity.json.sig" && Lookup(root, Split(f, '/')).Some? {
        assert f in measured <==> DigestAt(ctx, root, f).Some? && f != MANIFEST && f != SIGNATURE;
      }
    } else if forall f :: f in files <==> f in measured {
      var f :| f in files && files[f] != measured[f];
      assert measured[f] == Hex.Print(ctx.sha256(Lookup(root, Split(f, '/')).value));
    } else {
      var f :| !(f in files <==> f in measured);
      assert f in measured <==> f != "integrity.json" && f != "integrity.json.sig" && Lookup(root, Split(f, '/')).Some?;
    }
  }

  lemma SameDigestIffSameContent(ctx: Context, root: Entries, later: Entries, f: string)
    requires var was, now := Lookup(root, Split(f, '/')), Lookup(later, Split(f, '/'));
             was.Some? && now.Some? && ctx.sha256(was.value) == ctx.sha256(now.value) ==> was == now
    ensures DigestAt(ctx, later, f) == DigestAt(ctx, root, f)
            <==> Lookup(later, Split(f, '/')) == Lookup(root, Split(f, '/'))
  {
    hide Lookup, Split;
    var was, now := Lookup(root, Split(f, '/')), Lookup(later, Split(f, '/'));
    if was.Some? && now.Some? {
      Hex.ParsePrint(ctx.sha256(was.value));
      Hex.ParsePrint(ctx.sha256(now.value));
    }
  }

  /**
   * A later tree that keeps the two integrity files is accepted exactly when every
   * other file is as it was, byte for byte, and there is no more and no less of
   * them, provided the hash tells the contents at each name apart.
   */
  lemma ChangedContentIsRefused(ctx: Context, root: Entries, later: Entries, manifest: Manifest)
    requires WellFormed(root) && WellFormed(later) && Authentic(ctx, root, manifest)
    requires Lookup(later, ["integrity.json"]) == Lookup(root, ["integrity.json"])
    requires Lookup(later, ["integrity.json.sig"]) == Lookup(root, ["integrity.json.sig"])
    requires forall f ::
               var was, now := Lookup(root, Split(f, '/')), Lookup(later, Split(f, '/'));
               was.Some? && now.Some? && ctx.sha256(was.value) == ctx.sha256(now.value) ==> was == now
    ensures Verdict(ctx, later).Some? <==>
            forall f :: f != "integrity.json" && f != "integrity.json.sig" ==>
              Lookup(later, Split(f, '/')) == Lookup(root, Split(f, '/'))
  {
    hide WellFormed, Lookup, Authentic, Split, DigestAt;
    TamperingIsRefused(ctx, root, later, manifest);
    if Verdict(ctx, later).Some? {
      forall f | f != "integrity.json" && f != "integrity.json.sig"
        ensures Lookup(later, Split(f, '/')) == Lookup(root, Split(f, '/'))
      {
        assert DigestAt(ctx, later, f) == DigestAt(ctx, root, f);
        SameDigestIffSameContent(ctx, root, later, f);
      }
    } else {
      var f :| f != MANIFEST && f != SIGNATURE && DigestAt(ctx, later, f) != DigestAt(ctx, root, f);
      SameDigestIffSameContent(ctx, root, later, f);
      assert f != "integrity.json" && f != "integrity.json.sig";
      assert Lookup(later, Split(f, '/')) != Lookup(root, Split(f, '/'));
    }
  }
}
