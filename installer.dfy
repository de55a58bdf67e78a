/**
  The pure parts of internal/installer/installer.go: the version name
  `Install` works with, the entry-name mapping of `extractTarball` over the
  sequence of archive headers, and the paths and the skip rule of the two
  wrapper scripts.

  Downloading, gzip and tar decoding, and every file-system call are not
  modelled; an archive is the sequence of its headers, and a path is joined
  as `dir + "/" + name`.
*/
module Installer {
  import opened Wrappers
  import opened Text
  import opened Version

  // ---------------------------------------------------------------------------
  // The version name
  // ---------------------------------------------------------------------------

  /** Install's version: trimmed, with "go" put in front when missing. */
  function InstallName(version: string): (r: string)
    ensures r == NormalizeVersion(version)
    ensures HasPrefix(r, "go") && Trimmed(r)
  {
    var v := TrimSpace(version);
    if !HasPrefix(v, "go") then "go" + v else v
  }

  /** Installing under a name Install produced installs under that same name. */
  lemma InstallNameIdempotent(version: string)
    ensures InstallName(InstallName(version)) == InstallName(version)
  {
    NormalizeVersionIdempotent(version);
  }

  // ---------------------------------------------------------------------------
  // Archive entries
  // ---------------------------------------------------------------------------

  /** The type of an archive entry: a regular file, a directory, or anything else. */
  datatype Kind = Regular | Directory | OtherKind

  /** A tar header, reduced to what the name mapping reads. */
  datatype Header = Header(name: string, kind: Kind)

  /** What extraction creates: a file or directory at `name` under the destination. */
  datatype Entry = Entry(name: string, kind: Kind)

  predicate Slashless(s: string) {
    forall i :: 0 <= i < |s| ==> s[i] != '/'
  }

  /** The first element of strings.Split(s, "/"): everything before the first "/". */
  function FirstSegment(s: string): (seg: string)
    ensures HasPrefix(s, seg) && Slashless(seg)
    ensures |seg| < |s| ==> s[|seg|] == '/'
    decreases |s|
  {
    if s == [] || s[0] == '/' then [] else [s[0]] + FirstSegment(s[1..])
  }

  /**
    The prefix to strip, read from the first entry's name: without a leading
    "./", its first segment and a "/", or nothing when that segment is empty.
  */
  function StripPrefixOf(firstName: string): (prefix: string)
    ensures prefix == "" <==> (var n := TrimPrefix(firstName, "./"); n == [] || n[0] == '/')
    ensures prefix != "" ==>
              var seg, n := prefix[..|prefix| - 1], TrimPrefix(firstName, "./");
              && prefix == seg + "/" && Slashless(seg)
              && (n == seg || HasPrefix(n, prefix))
  {
    var seg := FirstSegment(TrimPrefix(firstName, "./"));
    if seg != "" then
      assert (seg + "/")[..|seg|] == seg;
      seg + "/"
    else ""
  }

  /** The name an entry is written under: the raw name, with the prefix removed once when it starts with it. */
  function MapName(name: string, prefix: string): (r: string)
    ensures prefix != "" && HasPrefix(name, prefix) ==> prefix + r == name
    ensures !(prefix != "" && HasPrefix(name, prefix)) ==> r == name
  {
    if prefix != "" && HasPrefix(name, prefix) then TrimPrefix(name, prefix) else name
  }

  /** What one header produces: nothing for other kinds and for the names "" and "./". */
  function EntryOf(h: Header, prefix: string): Option<Entry> {
    if h.kind != Regular && h.kind != Directory then None
    else
      var name := MapName(h.name, prefix);
      if name == "" || name == "./" then None else Some(Entry(name, h.kind))
  }

  /** The entries `headers` produce under a fixed prefix, in order. */
  function Outputs(headers: seq<Header>, prefix: string): seq<Entry>
    decreases |headers|
  {
    if headers == [] then []
    else
      var e := EntryOf(headers[|headers| - 1], prefix);
      Outputs(headers[..|headers| - 1], prefix) + if e.Some? then [e.value] else []
  }

  /** What extraction produces: the entries under the prefix the first header fixes. */
  function ExtractSpec(headers: seq<Header>): seq<Entry> {
    if headers == [] then [] else Outputs(headers, StripPrefixOf(headers[0].name))
  }

  /**
    The loop of extractTarball. `readError` says whether reading the archive
    fails after `headers` instead of reaching its end; what was extracted by
    then stays extracted.
  */
  method ExtractTarball(headers: seq<Header>, readError: bool) returns (entries: seq<Entry>, failed: bool)
    ensures entries == ExtractSpec(headers)
    ensures failed == readError
  {
    var stripPrefix := "";
    var firstEntry := true;
    entries := [];
    var i := 0;
    while i < |headers|
      invariant 0 <= i <= |headers|
      invariant firstEntry <==> i == 0
      invariant stripPrefix == if i == 0 then "" else StripPrefixOf(headers[0].name)
      invariant entries == Outputs(headers[..i], stripPrefix)
    {
      var header := headers[i];
      if firstEntry {
        firstEntry := false;
        stripPrefix := DetectPrefix(header.name);
      }
      var e := ExtractEntry(header, stripPrefix);
      OutputsStep(headers, i, stripPrefix);
      if e.Some? {
        entries := entries + [e.value];
      }
      i := i + 1;
    }
    assert headers[..|headers|] == headers;
    failed := readError;
  }

  /** The first-entry check: the prefix read from the first header's name. */
  method DetectPrefix(name: string) returns (stripPrefix: string)
    ensures stripPrefix == StripPrefixOf(name)
  {
    stripPrefix := "";
    var first := FirstSegment(TrimPrefix(name, "./"));
    if first != "" {
      stripPrefix := first + "/";
    }
  }

  /** One pass of the loop after the first-entry check: skip, or the entry to create. */
  method ExtractEntry(header: Header, stripPrefix: string) returns (e: Option<Entry>)
    ensures e == EntryOf(header, stripPrefix)
  {
    if header.kind != Regular && header.kind != Directory {
      return None;
    }
    var name := header.name;
    if stripPrefix != "" && HasPrefix(name, stripPrefix) {
      name := TrimPrefix(name, stripPrefix);
    }
    if name == "" || name == "./" {
      return None;
    }
    return Some(Entry(name, header.kind));
  }

  // ---------------------------------------------------------------------------
  // Properties of the name mapping
  // ---------------------------------------------------------------------------

  lemma OutputsStep(headers: seq<Header>, i: int, prefix: string)
    requires 0 <= i < |headers|
    ensures Outputs(headers[..i + 1], prefix)
            == Outputs(headers[..i], prefix) + (var e := EntryOf(headers[i], prefix); if e.Some? then [e.value] else [])
  {
    assert headers[..i + 1] == headers[..i] + [headers[i]];
    OutputsSnoc(headers[..i], headers[i], prefix);
  }

  lemma OutputsSnoc(headers: seq<Header>, h: Header, prefix: string)
    ensures Outputs(headers + [h], prefix) == Outputs(headers, prefix) + (var e := EntryOf(h, prefix); if e.Some? then [e.value] else [])
  {
    assert (headers + [h])[..|headers|] == headers;
  }

  lemma {:induction false} OutputsConcat(a: seq<Header>, b: seq<Header>, prefix: string)
    ensures Outputs(a + b, prefix) == Outputs(a, prefix) + Outputs(b, prefix)
    decreases |b|
  {
    if b != [] {
      var init, last := b[..|b| - 1], b[|b| - 1];
      assert a + b == (a + init) + [last];
      assert b == init + [last];
      OutputsSnoc(a + init, last, prefix);
      OutputsSnoc(init, last, prefix);
      OutputsConcat(a, init, prefix);
    } else {
      assert a + b == a;
    }
  }

  /**
    Exactly the regular files and directories whose mapped name is neither ""
    nor "./" come out, each under its mapped name and with its own kind.
  */
  lemma {:induction false} OutputsExactly(headers: seq<Header>, prefix: string)
    ensures forall e :: e in Outputs(headers, prefix) ==>
              && (e.kind == Regular || e.kind == Directory) && e.name != "" && e.name != "./"
              && exists h :: h in headers && h.kind == e.kind && MapName(h.name, prefix) == e.name
    ensures forall h :: h in headers && EntryOf(h, prefix).Some? ==> EntryOf(h, prefix).value in Outputs(headers, prefix)
    decreases |headers|
  {
    if headers != [] {
      var init, last := headers[..|headers| - 1], headers[|headers| - 1];
      assert headers == init + [last];
      OutputsExactly(init, prefix);
    }
  }

  /** Headers of other kinds produce nothing, wherever they are. */
  lemma {:induction false} OtherKindsProduceNothing(headers: seq<Header>, prefix: string)
    requires forall h :: h in headers ==> h.kind == OtherKind
    ensures Outputs(headers, prefix) == []
    decreases |headers|
  {
    if headers != [] {
      var init := headers[..|headers| - 1];
      assert forall h :: h in init ==> h in headers;
      OtherKindsProduceNothing(init, prefix);
    }
  }

  /**
    The first header fixes the prefix even when it is not extracted itself:
    a first header of another kind produces nothing, yet the rest is mapped
    under the prefix read from its name.
  */
  lemma FirstHeaderFixesPrefix(first: Header, rest: seq<Header>)
    ensures ExtractSpec([first] + rest) ==
              (var e := EntryOf(first, StripPrefixOf(first.name)); if e.Some? then [e.value] else [])
              + Outputs(rest, StripPrefixOf(first.name))
    ensures first.kind == OtherKind ==> ExtractSpec([first] + rest) == Outputs(rest, StripPrefixOf(first.name))
  {
    var prefix := StripPrefixOf(first.name);
    OutputsConcat([first], rest, prefix);
    assert [first][..0] == [];
  }

  /** A first segment followed by "/" is read back as that segment. */
  lemma {:induction false} FirstSegmentOf(seg: string, rest: string)
    requires Slashless(seg)
    ensures FirstSegment(seg + "/" + rest) == seg
    decreases |seg|
  {
    if seg == [] {
      assert (seg + "/" + rest)[0] == '/';
    } else {
      assert (seg + "/" + rest)[1..] == seg[1..] + "/" + rest;
      FirstSegmentOf(seg[1..], rest);
    }
  }

  /**
    The usual archive: a first header named "top/..." makes "top/" the
    prefix, every "top/x" header maps to "x", and the top directory itself
    maps to "" and is skipped.
  */
  lemma TopDirectoryStripped(top: string, rest: string, x: string, kind: Kind)
    requires top != "" && Slashless(top) && top != "."
    ensures StripPrefixOf(top + "/" + rest) == top + "/"
    ensures MapName(top + "/" + x, top + "/") == x
    ensures EntryOf(Header(top + "/", kind), top + "/") == None
  {
    var name := top + "/" + rest;
    assert !HasPrefix(name, "./") by {
      assert name[0] == top[0];
      if top[0] == '.' {
        assert name[1] == top[1];
      }
    }
    FirstSegmentOf(top, rest);
    assert top + "/" + x == (top + "/") + x;
    assert MapName(top + "/", top + "/") == "" by {
      assert HasPrefix(top + "/", top + "/");
    }
  }

  // ---------------------------------------------------------------------------
  // Entries that start with "./"
  // ---------------------------------------------------------------------------

  /**
    As written, the prefix is read from the name without its "./" but
    compared with the raw names: in an archive whose names start with
    "./top/", the prefix is "top/" and no entry is stripped, so everything
    lands under an extra "top" directory, and "./top/" itself is extracted.
  */
  lemma DotSlashNotStripped(top: string, x: string)
    requires top != "" && Slashless(top) && top != "."
    ensures StripPrefixOf("./" + top + "/") == top + "/"
    ensures MapName("./" + top + "/" + x, top + "/") == "./" + top + "/" + x
    ensures EntryOf(Header("./" + top + "/", Directory), top + "/") == Some(Entry("./" + top + "/", Directory))
  {
    var prefix := top + "/";
    var first := "./" + top + "/";
    assert StripPrefixOf(first) == prefix by {
      assert HasPrefix(first, "./") && first[2..] == top + "/" + "";
      FirstSegmentOf(top, "");
    }
    var name := "./" + top + "/" + x;
    assert HasPrefix(name, "./") by {
      assert name[..2] == "./";
    }
    NotUnderPrefix(name, top);
    assert HasPrefix(first, "./") && |first| > 2;
    NotUnderPrefix(first, top);
  }

  /** A name starting with "./" is not under the prefix of any top directory other than ".". */
  lemma NotUnderPrefix(name: string, top: string)
    requires HasPrefix(name, "./") && top != "" && Slashless(top) && top != "."
    ensures MapName(name, top + "/") == name
  {
    var prefix := top + "/";
    assert name[0] == '.' && name[1] == '/';
    var k := if top[0] == '.' then 1 else 0;
    assert |top| == 1 ==> top == [top[0]];
    if top[0] == '.' {
      assert prefix[1] == top[1];
    }
    assert k < |prefix| && prefix[k] != name[k];
    assert |prefix| <= |name| ==> name[..|prefix|][k] != prefix[k];
  }

  /** The whole archive of the example: both entries keep their "./top/" names. */
  lemma DotSlashArchiveNotStripped(top: string, x: string)
    requires top != "" && Slashless(top) && top != "."
    ensures ExtractSpec([Header("./" + top + "/", Directory), Header("./" + top + "/" + x, Regular)])
            == [Entry("./" + top + "/", Directory), Entry("./" + top + "/" + x, Regular)]
  {
    var a, b := Header("./" + top + "/", Directory), Header("./" + top + "/" + x, Regular);
    var prefix := top + "/";
    DotSlashNotStripped(top, x);
    assert EntryOf(b, prefix) == Some(Entry(b.name, Regular)) by {
      assert HasPrefix(b.name, "./") && |b.name| > 2;
      NotUnderPrefix(b.name, top);
    }
    OutputsSnoc([], a, prefix);
    assert Outputs([a], prefix) == [Entry(a.name, Directory)] by {
      assert [] + [a] == [a];
    }
    assert [a, b] == [a] + [b];
    OutputsSnoc([a], b, prefix);
    assert ExtractSpec([a, b]) == Outputs([a, b], prefix);
  }

  /**
    The mapping the prefix detection evidently intends: drop a leading "./"
    before comparing with the prefix. Dropping it is harmless for every
    other name, since joining with the destination cleans "./" away.
  */
  function MapNameIntended(name: string, prefix: string): (r: string)
    ensures !HasPrefix(name, "./") ==> r == MapName(name, prefix)
    ensures prefix != "" && HasPrefix(name, "./" + prefix) ==> "./" + prefix + r == name
  {
    if HasPrefix(name, "./") then
      var n := TrimPrefix(name, "./");
      assert "./" + n == name;
      assert HasPrefix(name, "./" + prefix) ==> HasPrefix(n, prefix) by {
        if HasPrefix(name, "./" + prefix) {
          assert n[..|prefix|] == ("./" + prefix)[2..];
        }
      }
      MapName(n, prefix)
    else MapName(name, prefix)
  }

  /** A header whose name has its leading "./", if any, dropped. */
  function DropDotSlash(h: Header): Header {
    h.(name := TrimPrefix(h.name, "./"))
  }

  function DropDotSlashAll(headers: seq<Header>): (r: seq<Header>)
    ensures |r| == |headers|
    ensures forall k :: 0 <= k < |r| ==> r[k] == DropDotSlash(headers[k])
  {
    seq(|headers|, i requires 0 <= i < |headers| => DropDotSlash(headers[i]))
  }

  /** The corrected extraction: every name is read without its leading "./". */
  function ExtractIntended(headers: seq<Header>): seq<Entry> {
    ExtractSpec(DropDotSlashAll(headers))
  }

  /** The archive `headers` with "./" put in front of every name. */
  function DotSlashed(headers: seq<Header>): (r: seq<Header>)
    ensures |r| == |headers|
    ensures forall k :: 0 <= k < |r| ==> r[k] == headers[k].(name := "./" + headers[k].name)
  {
    seq(|headers|, i requires 0 <= i < |headers| => headers[i].(name := "./" + headers[i].name))
  }

  /** For archives without "./" names, the correction changes nothing. */
  lemma ExtractIntendedOfPlain(headers: seq<Header>)
    requires forall k :: 0 <= k < |headers| ==> !HasPrefix(headers[k].name, "./")
    ensures ExtractIntended(headers) == ExtractSpec(headers)
  {
    var dropped := DropDotSlashAll(headers);
    forall k | 0 <= k < |headers| ensures dropped[k] == headers[k] {
      assert TrimPrefix(headers[k].name, "./") == headers[k].name;
    }
    assert dropped == headers;
  }

  /** With the correction, an archive whose names carry "./" extracts exactly like the same archive without it. */
  lemma DotSlashArchiveAsIntended(headers: seq<Header>)
    requires forall k :: 0 <= k < |headers| ==> !HasPrefix(headers[k].name, "./")
    ensures ExtractIntended(DotSlashed(headers)) == ExtractSpec(headers)
  {
    var dropped := DropDotSlashAll(DotSlashed(headers));
    forall k | 0 <= k < |headers| ensures dropped[k] == headers[k] {
      var n := headers[k].name;
      assert HasPrefix("./" + n, "./");
      assert ("./" + n)[2..] == n;
    }
    assert dropped == headers;
  }

  /** With the intended mapping, "./top/x" and "top/x" both map to "x" under the detected prefix. */
  lemma DotSlashStrippedAsIntended(top: string, rest: string, x: string)
    requires top != "" && Slashless(top) && top != "."
    ensures StripPrefixOf("./" + top + "/" + rest) == top + "/"
    ensures MapNameIntended("./" + top + "/" + x, top + "/") == x
    ensures MapNameIntended(top + "/" + x, top + "/") == x
  {
    var prefix := top + "/";
    var first := "./" + top + "/" + rest;
    assert HasPrefix(first, "./") && first[2..] == top + "/" + rest;
    FirstSegmentOf(top, rest);
    var name := "./" + top + "/" + x;
    assert name == ("./" + prefix) + x;
    assert HasPrefix(name, "./" + prefix) by {
      assert name[..|"./" + prefix|] == "./" + prefix;
    }
    var r := MapNameIntended(name, prefix);
    assert ("./" + prefix) + r == ("./" + prefix) + x;
    assert r == x by {
      assert r == (("./" + prefix) + r)[|"./" + prefix|..];
    }
    TopDirectoryStripped(top, rest, x, Directory);
  }

  // ---------------------------------------------------------------------------
  // Wrapper scripts
  // ---------------------------------------------------------------------------

  /** filepath.Join of a clean directory and a clean relative name. */
  function Join(dir: string, name: string): string {
    dir + "/" + name
  }

  /** The wrapper for `go` is named after the version. */
  function GoScriptPath(binDir: string, version: string): string {
    Join(binDir, version)
  }

  /** The wrapper for `gofmt` is "gofmt" followed by the version without its "go". */
  function GofmtScriptName(version: string): (r: string)
    ensures HasPrefix(version, "go") ==> r == "gofmt" + version[2..]
    ensures !HasPrefix(version, "go") ==> r == "gofmt" + version
  {
    "gofmt" + TrimPrefix(version, "go")
  }

  function GofmtScriptPath(binDir: string, version: string): string {
    Join(binDir, GofmtScriptName(version))
  }

  /** The gofmt binary of an installation. */
  function GofmtBin(installDir: string): string {
    Join(Join(installDir, "bin"), "gofmt")
  }

  /** The text of the gofmt wrapper: a bash script that runs `gofmtBin` with its arguments. */
  function GofmtScript(gofmtBin: string): string {
    "#!/bin/bash\nexec \"" + gofmtBin + "\" \"$@\"\n"
  }

  /** What is found at the gofmt wrapper's path. */
  datatype ScriptFile = Absent | Unreadable | Present(content: string)

  /**
    The gofmt skip rule: nothing is written when the existing script can be
    read and already mentions the gofmt binary; otherwise the script is written.
  */
  function GofmtScriptWrite(existing: ScriptFile, gofmtBin: string): (r: Option<string>)
    ensures r.None? <==> existing.Present? && Contains(existing.content, gofmtBin)
  {
    if existing.Present? && Contains(existing.content, gofmtBin) then None else Some(GofmtScript(gofmtBin))
  }

  /** A second install of the same version leaves the gofmt wrapper it wrote alone. */
  lemma GofmtScriptWriteIdempotent(existing: ScriptFile, gofmtBin: string)
    ensures var r := GofmtScriptWrite(existing, gofmtBin);
            r.Some? ==> GofmtScriptWrite(Present(r.value), gofmtBin) == None
  {
    ContainsMiddle("#!/bin/bash\nexec \"", gofmtBin, "\" \"$@\"\n");
  }

  /**
    Both wrappers are files directly in binDir, one named after the version
    and one after GofmtScriptName; the gofmt binary is bin/gofmt of the
    installation.
  */
  lemma ScriptLocations(binDir: string, installDir: string, version: string)
    ensures var goPath, gofmtPath := GoScriptPath(binDir, version), GofmtScriptPath(binDir, version);
            && HasPrefix(goPath, binDir + "/") && goPath[|binDir| + 1..] == version
            && HasPrefix(gofmtPath, binDir + "/") && gofmtPath[|binDir| + 1..] == GofmtScriptName(version)
    ensures GofmtBin(installDir) == installDir + "/bin/gofmt"
  {
    var goPath, gofmtPath := GoScriptPath(binDir, version), GofmtScriptPath(binDir, version);
    assert goPath == (binDir + "/") + version;
    assert gofmtPath == (binDir + "/") + GofmtScriptName(version);
    assert "/" + "bin" + "/" + "gofmt" == "/bin/gofmt";
    assert GofmtBin(installDir) == installDir + ("/" + "bin" + "/" + "gofmt");
  }

  /** The two wrappers of one version never share a path. */
  lemma ScriptPathsDistinct(binDir: string, version: string)
    ensures GoScriptPath(binDir, version) != GofmtScriptPath(binDir, version)
  {
    var name := GofmtScriptName(version);
    assert |name| > |version|;
    assert |GoScriptPath(binDir, version)| < |GofmtScriptPath(binDir, version)|;
  }

  /** Different versions, as Install names them, get different gofmt wrappers. */
  lemma GofmtScriptNameInjective(a: string, b: string)
    requires HasPrefix(a, "go") && HasPrefix(b, "go")
    requires GofmtScriptName(a) == GofmtScriptName(b)
    ensures a == b
  {
    assert a[2..] == GofmtScriptName(a)[5..];
    assert b[2..] == GofmtScriptName(b)[5..];
    assert a == a[..2] + a[2..] && b == b[..2] + b[2..];
  }

  /** Without the "go" prefix Install adds, "go1.22" and "1.22" would share a gofmt wrapper. */
  lemma GofmtScriptNameNeedsPrefix(v: string)
    requires !HasPrefix(v, "go")
    ensures GofmtScriptName("go" + v) == GofmtScriptName(v)
  {
    assert ("go" + v)[2..] == v;
  }
}
