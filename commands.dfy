/** The UI process's side of the hand-off (src/rust/ui/commands.rs): reading its command
    line, reading the request file, and listing the project's files. The file system is
    described by values; a directory tree is a `Listing` of `Entry` values. */
module Commands {
  import opened Wrappers
  import opened Text
  import Paths

  // ===========================================================================
  // `get_cli_args`

  const McpRequestFlag: string := "--mcp-request"
  const McpRequestKey: string := "mcp_request"

  /** The argument map: `mcp_request` is the argument after the flag, and only when the
      flag is the first argument after the program name. */
  function GetCliArgs(args: seq<string>): (r: map<string, string>)
    ensures McpRequestKey in r <==> |args| >= 3 && args[1] == McpRequestFlag
    ensures McpRequestKey in r ==> r[McpRequestKey] == args[2]
    ensures r.Keys <= {McpRequestKey}
  {
    if |args| >= 3 && args[1] == McpRequestFlag then map[McpRequestKey := args[2]] else map[]
  }

  /** Arguments after the path play no part. */
  lemma GetCliArgsIgnoresTail(args: seq<string>, extra: seq<string>)
    requires |args| >= 3
    ensures GetCliArgs(args + extra) == GetCliArgs(args)
  {
    assert (args + extra)[1] == args[1] && (args + extra)[2] == args[2];
  }

  /** The flag anywhere but first is not recognised. */
  lemma GetCliArgsFlagOnlyFirst(program: string, first: string, rest: seq<string>)
    requires first != McpRequestFlag
    ensures GetCliArgs([program, first] + rest) == map[]
  {}

  // ===========================================================================
  // `read_mcp_request`

  /** What the file system says about the request path. */
  datatype FileProbe =
    | Absent
    | ReadFails(error: string)
    | Readable(text: string)

  const EmptyFileMessage: string := "文件內容為空"

  /** Checks in order: the file exists, it can be read, it is not blank, it parses (the
      JSON parser is the `parseJson` parameter and sees the untrimmed text). */
  function ReadMcpRequest<J>(filePath: string, file: FileProbe, parseJson: string -> Result<J, string>)
    : (r: Result<J, string>)
    ensures file.Absent? ==> r == Err("文件不存在: " + filePath)
    ensures file.ReadFails? ==> r == Err("讀取文件失敗: " + file.error)
    ensures file.Readable? && AllWhitespace(file.text) ==> r == Err(EmptyFileMessage)
    ensures file.Readable? && !AllWhitespace(file.text) ==>
      r == match parseJson(file.text)
           case Ok(json) => Ok(json)
           case Err(e) => Err("解析 JSON 失敗: " + e)
  {
    match file
    case Absent => Err("文件不存在: " + filePath)
    case ReadFails(e) => Err("讀取文件失敗: " + e)
    case Readable(content) =>
      if Trim(content) == "" then Err(EmptyFileMessage)
      else
        match parseJson(content)
        case Ok(json) => Ok(json)
        case Err(e) => Err("解析 JSON 失敗: " + e)
  }

  /** A blank file is rejected before the parser is consulted: any two parsers agree. */
  lemma BlankFileIgnoresParser<J>(filePath: string, text: string,
                                  p1: string -> Result<J, string>, p2: string -> Result<J, string>)
    requires AllWhitespace(text)
    ensures ReadMcpRequest(filePath, Readable(text), p1) == ReadMcpRequest(filePath, Readable(text), p2)
            == Err(EmptyFileMessage)
  {}

  /** Success means the file was there, readable, not blank, and parsed. */
  lemma ReadMcpRequestSuccess<J>(filePath: string, file: FileProbe, parseJson: string -> Result<J, string>)
    requires ReadMcpRequest(filePath, file, parseJson).Ok?
    ensures file.Readable? && !AllWhitespace(file.text)
    ensures parseJson(file.text) == Ok(ReadMcpRequest(filePath, file, parseJson).value)
  {}

  // ===========================================================================
  // `scan_directory` over a directory tree

  /** A directory entry: a regular file, a directory (its listing), something that is
      neither (a dangling link, say), or an entry the iterator failed to produce. */
  datatype Entry =
    | File(name: string)
    | Dir(name: string, listing: Listing)
    | Other(name: string)
    | Broken(error: string)

  /** A directory's contents in enumeration order, or the error `read_dir` reports. */
  datatype Listing = Listed(entries: seq<Entry>) | Unlistable(error: string)

  /** Hidden names and the usual build and dependency directories are skipped. */
  predicate Ignored(name: string) {
    || (|name| > 0 && name[0] == '.')
    || name == "node_modules"
    || name == "target"
    || name == "dist"
    || name == "build"
  }

  /** The listing of a directory at `path`, `maxDepth` levels deep. */
  function ScanSpec(path: string, listing: Listing, maxDepth: nat): Result<seq<string>, string>
    decreases listing
  {
    if maxDepth == 0 then Ok([])
    else
      match listing
      case Unlistable(e) => Err(e)
      case Listed(es) => ScanEntries(path, es, maxDepth)
  }

  /** The files of one scan followed by those of another; the first error wins. */
  function Chain(first: Result<seq<string>, string>, second: Result<seq<string>, string>): (r: Result<seq<string>, string>)
    ensures first.Err? ==> r == first
    ensures first.Ok? && second.Err? ==> r == second
    ensures first.Ok? && second.Ok? ==> r == Ok(first.value + second.value)
  {
    match first
    case Err(e) => Err(e)
    case Ok(found) =>
      match second
      case Err(e) => Err(e)
      case Ok(more) => Ok(found + more)
  }

  /** The files found under the entries `es` of the directory at `path`; the first error met
      in enumeration order ends the scan. */
  function ScanEntries(path: string, es: seq<Entry>, maxDepth: nat): Result<seq<string>, string>
    requires maxDepth >= 1
    decreases es
  {
    if es == [] then Ok([])
    else Chain(ScanEntries(path, es[..|es| - 1], maxDepth), ScanEntry(path, es[|es| - 1], maxDepth))
  }

  /** What one entry contributes: an ignored name or a non-file, non-directory nothing, a
      file its path, a directory what the scan one level down finds. */
  function ScanEntry(path: string, e: Entry, maxDepth: nat): Result<seq<string>, string>
    requires maxDepth >= 1
    decreases e
  {
    match e
    case Broken(err) => Err(err)
    case Other(_) => Ok([])
    case File(name) => if Ignored(name) then Ok([]) else Ok([Paths.Join(path, name)])
    case Dir(name, sub) => if Ignored(name) then Ok([]) else ScanSpec(Paths.Join(path, name), sub, maxDepth - 1)
  }

  /** `scan_directory`: the loop over the directory's entries, recursing into
      subdirectories with one level less. */
  method ScanDirectory(path: string, listing: Listing, maxDepth: nat) returns (r: Result<seq<string>, string>)
    ensures r == ScanSpec(path, listing, maxDepth)
    decreases listing
  {
    if maxDepth == 0 {
      return Ok([]);
    }
    if listing.Unlistable? {
      return Err(listing.error);
    }
    var es := listing.entries;
    var files := [];
    for i := 0 to |es|
      invariant ScanEntries(path, es[..i], maxDepth) == Ok(files)
    {
      ScanEntriesStep(path, es, i, maxDepth);
      var more := [];
      match es[i] {
        case Broken(e) =>
          FirstErrorSticks(path, es, i + 1, maxDepth);
          return Err(e);
        case Other(_) =>
        case File(name) =>
          if !Ignored(name) {
            more := [Paths.Join(path, name)];
          }
        case Dir(name, sub) =>
          if !Ignored(name) {
            var found := ScanDirectory(Paths.Join(path, name), sub, maxDepth - 1);
            if found.Err? {
              FirstErrorSticks(path, es, i + 1, maxDepth);
              return Err(found.error);
            }
            more := found.value;
          }
      }
      assert ScanEntry(path, es[i], maxDepth) == Ok(more);
      files := files + more;
    }
    assert es[..|es|] == es;
    return Ok(files);
  }

  /** `get_project_files`: three levels below the working directory, whose lookup (passed
      in) can fail; that failure is the result. */
  method GetProjectFiles(cwd: Result<string, string>, root: Listing) returns (r: Result<seq<string>, string>)
    ensures cwd.Err? ==> r == Err(cwd.error)
    ensures cwd.Ok? ==> r == ScanSpec(cwd.value, root, 3)
  {
    if cwd.Err? {
      return Err(cwd.error);
    }
    r := ScanDirectory(cwd.value, root, 3);
  }

  lemma ChainAssoc(x: Result<seq<string>, string>, y: Result<seq<string>, string>, z: Result<seq<string>, string>)
    ensures Chain(Chain(x, y), z) == Chain(x, Chain(y, z))
  {
    if x.Ok? && y.Ok? && z.Ok? {
      assert x.value + y.value + z.value == x.value + (y.value + z.value);
    }
  }

  lemma ChainEmpty(x: Result<seq<string>, string>)
    ensures Chain(x, Ok([])) == x
  {
    if x.Ok? {
      assert x.value + [] == x.value;
    }
  }

  /** Scanning a listing with one more entry at the end. */
  lemma ScanEntriesSnoc(path: string, es: seq<Entry>, e: Entry, maxDepth: nat)
    requires maxDepth >= 1
    ensures ScanEntries(path, es + [e], maxDepth) == Chain(ScanEntries(path, es, maxDepth), ScanEntry(path, e, maxDepth))
  {
    assert (es + [e])[..|es|] == es;
  }

  /** One more entry examined by the loop. */
  lemma ScanEntriesStep(path: string, es: seq<Entry>, i: nat, maxDepth: nat)
    requires maxDepth >= 1 && i < |es|
    ensures ScanEntries(path, es[..i + 1], maxDepth) == Chain(ScanEntries(path, es[..i], maxDepth), ScanEntry(path, es[i], maxDepth))
  {
    assert es[..i + 1] == es[..i] + [es[i]];
    ScanEntriesSnoc(path, es[..i], es[i], maxDepth);
  }

  /** Results keep enumeration order: scanning two runs of entries one after the other
      gives the first run's files followed by the second's, or the first error met. */
  lemma {:induction false} ScanEntriesAppend(path: string, a: seq<Entry>, b: seq<Entry>, maxDepth: nat)
    requires maxDepth >= 1
    ensures ScanEntries(path, a + b, maxDepth) == Chain(ScanEntries(path, a, maxDepth), ScanEntries(path, b, maxDepth))
    decreases |b|
  {
    if b == [] {
      assert a + b == a;
      ChainEmpty(ScanEntries(path, a, maxDepth));
    } else {
      var b', last := b[..|b| - 1], b[|b| - 1];
      assert b == b' + [last];
      assert a + b == (a + b') + [last];
      ScanEntriesSnoc(path, b', last, maxDepth);
      ScanEntriesSnoc(path, a + b', last, maxDepth);
      ScanEntriesAppend(path, a, b', maxDepth);
      ChainAssoc(ScanEntries(path, a, maxDepth), ScanEntries(path, b', maxDepth), ScanEntry(path, last, maxDepth));
    }
  }

  /** Once a prefix of the entries fails, the whole scan fails with that error. */
  lemma FirstErrorSticks(path: string, es: seq<Entry>, j: nat, maxDepth: nat)
    requires maxDepth >= 1 && j <= |es|
    requires ScanEntries(path, es[..j], maxDepth).Err?
    ensures ScanEntries(path, es, maxDepth) == ScanEntries(path, es[..j], maxDepth)
  {
    assert es == es[..j] + es[j..];
    ScanEntriesAppend(path, es[..j], es[j..], maxDepth);
  }

  // ---- properties of the scan ----

  /** A subdirectory's files appear at the directory's position: after what the entries
      before it give, before what the entries after it give. */
  lemma ScanSplicesSubdirectory(path: string, before: seq<Entry>, name: string, sub: Listing,
                                after: seq<Entry>, maxDepth: nat)
    requires maxDepth >= 1 && !Ignored(name)
    ensures ScanEntries(path, before + [Dir(name, sub)] + after, maxDepth)
            == Chain(Chain(ScanEntries(path, before, maxDepth), ScanSpec(Paths.Join(path, name), sub, maxDepth - 1)),
                     ScanEntries(path, after, maxDepth))
  {
    var d := Dir(name, sub);
    ScanEntriesAppend(path, before + [d], after, maxDepth);
    ScanEntriesSnoc(path, before, d, maxDepth);
  }

  lemma ScanAtDepthZero(path: string, listing: Listing)
    ensures ScanSpec(path, listing, 0) == Ok([])
  {}

  /** An ignored file or directory adds nothing, whatever the directory holds. */
  lemma IgnoredEntryAddsNothing(path: string, es: seq<Entry>, e: Entry, maxDepth: nat)
    requires maxDepth >= 1 && !e.Broken? && Ignored(e.name)
    ensures ScanEntries(path, es + [e], maxDepth) == ScanEntries(path, es, maxDepth)
  {
    ScanEntriesSnoc(path, es, e, maxDepth);
    ChainEmpty(ScanEntries(path, es, maxDepth));
  }

  /** A file nested under the directories `dirs` (each holding only the next one). */
  function Nest(dirs: seq<string>, file: string): Listing
    decreases |dirs|
  {
    if dirs == [] then Listed([File(file)]) else Listed([Dir(dirs[0], Nest(dirs[1..], file))])
  }

  /** The path reached from `path` by descending through the components `segs`. */
  function JoinAll(path: string, segs: seq<string>): string
    decreases |segs|
  {
    if segs == [] then path else JoinAll(Paths.Join(path, segs[0]), segs[1..])
  }

  /** The path of that file below `path`. */
  function NestedPath(path: string, dirs: seq<string>, file: string): (r: string)
    ensures r == JoinAll(path, dirs + [file])
    decreases |dirs|
  {
    if dirs == [] then
      JoinAllCons(path, file, []);
      assert [file] + [] == dirs + [file];
      Paths.Join(path, file)
    else
      var r := NestedPath(Paths.Join(path, dirs[0]), dirs[1..], file);
      JoinAllCons(path, dirs[0], dirs[1..] + [file]);
      assert [dirs[0]] + (dirs[1..] + [file]) == dirs + [file];
      r
  }

  /** A file under `|dirs|` directories is reported iff it lies within `maxDepth` levels,
      since each subdirectory is scanned with one level less. */
  lemma {:induction false} ScanDepthBound(path: string, dirs: seq<string>, file: string, maxDepth: nat)
    requires !Ignored(file) && forall k :: 0 <= k < |dirs| ==> !Ignored(dirs[k])
    ensures ScanSpec(path, Nest(dirs, file), maxDepth)
            == Ok(if |dirs| < maxDepth then [NestedPath(path, dirs, file)] else [])
    decreases |dirs|
  {
    if maxDepth > 0 {
      if dirs == [] {
        ScanSingle(path, File(file), maxDepth);
      } else {
        var sub := Paths.Join(path, dirs[0]);
        ScanSingle(path, Dir(dirs[0], Nest(dirs[1..], file)), maxDepth);
        assert forall k :: 0 <= k < |dirs[1..]| ==> dirs[1..][k] == dirs[k + 1];
        ScanDepthBound(sub, dirs[1..], file, maxDepth - 1);
      }
    }
  }

  /** A listing of one entry contributes what that entry does. */
  lemma ScanSingle(path: string, e: Entry, maxDepth: nat)
    requires maxDepth >= 1
    ensures ScanEntries(path, [e], maxDepth) == ScanEntry(path, e, maxDepth)
  {
    assert [e][..0] == [];
    var r := ScanEntry(path, e, maxDepth);
    if r.Ok? {
      assert [] + r.value == r.value;
    }
  }

  /** Every entry name is a plain path component, as `read_dir` produces them. */
  ghost predicate WellNamed(listing: Listing)
    decreases listing
  {
    listing.Listed? ==> forall k :: 0 <= k < |listing.entries| ==> WellNamedEntry(listing.entries[k])
  }

  ghost predicate WellNamedEntry(e: Entry)
    decreases e
  {
    match e
    case File(n) => Paths.PlainName(n)
    case Other(n) => Paths.PlainName(n)
    case Dir(n, sub) => Paths.PlainName(n) && WellNamed(sub)
    case Broken(_) => true
  }

  /** Every reported path names a file whose own name is not ignored. */
  lemma {:induction false} ScanReportsNoIgnoredFile(path: string, listing: Listing, maxDepth: nat)
    requires WellNamed(listing)
    requires ScanSpec(path, listing, maxDepth).Ok?
    ensures forall s :: s in ScanSpec(path, listing, maxDepth).value ==>
      Paths.FileName(s).Some? && !Ignored(Paths.FileName(s).value)
    decreases listing, 1
  {
    if maxDepth > 0 && listing.Listed? {
      ScanEntriesReportNoIgnoredFile(path, listing.entries, maxDepth);
    }
  }

  lemma {:induction false} ScanEntriesReportNoIgnoredFile(path: string, es: seq<Entry>, maxDepth: nat)
    requires maxDepth >= 1
    requires forall k :: 0 <= k < |es| ==> WellNamedEntry(es[k])
    requires ScanEntries(path, es, maxDepth).Ok?
    ensures forall s :: s in ScanEntries(path, es, maxDepth).value ==>
      Paths.FileName(s).Some? && !Ignored(Paths.FileName(s).value)
    decreases es, 0
  {
    if es != [] {
      var pre := es[..|es| - 1];
      assert forall k :: 0 <= k < |pre| ==> pre[k] == es[k];
      ScanEntriesReportNoIgnoredFile(path, pre, maxDepth);
      var last := es[|es| - 1];
      assert WellNamedEntry(last);
      match last
      case File(name) =>
        if !Ignored(name) {
          Paths.FileNameOfJoin(path, name);
        }
      case Dir(name, sub) =>
        if !Ignored(name) {
          ScanReportsNoIgnoredFile(Paths.Join(path, name), sub, maxDepth - 1);
        }
      case Other(_) =>
      case Broken(_) =>
    }
  }

  /** The components on the way from `path` down to a reported file: plain names, none
      of them ignored. */
  ghost predicate KeptComponents(segs: seq<string>) {
    forall k :: 0 <= k < |segs| ==> Paths.PlainName(segs[k]) && !Ignored(segs[k])
  }

  /** `s` lies `1` to `depth` levels below `path`, through components that are not ignored. */
  ghost predicate WithinDepth(path: string, s: string, depth: nat) {
    exists segs :: 1 <= |segs| <= depth && KeptComponents(segs) && s == JoinAll(path, segs)
  }

  /** In any tree, a reported file lies at most `maxDepth` levels below the scanned
      directory, and no directory on the way to it is ignored. */
  lemma {:induction false} ScanWithinDepth(path: string, listing: Listing, maxDepth: nat)
    requires WellNamed(listing)
    requires ScanSpec(path, listing, maxDepth).Ok?
    ensures forall s :: s in ScanSpec(path, listing, maxDepth).value ==> WithinDepth(path, s, maxDepth)
    decreases listing, 1
  {
    if maxDepth > 0 && listing.Listed? {
      ScanEntriesWithinDepth(path, listing.entries, maxDepth);
    }
  }

  lemma {:induction false} ScanEntriesWithinDepth(path: string, es: seq<Entry>, maxDepth: nat)
    requires maxDepth >= 1
    requires forall k :: 0 <= k < |es| ==> WellNamedEntry(es[k])
    requires ScanEntries(path, es, maxDepth).Ok?
    ensures forall s :: s in ScanEntries(path, es, maxDepth).value ==> WithinDepth(path, s, maxDepth)
    decreases es, 0
  {
    if es != [] {
      var pre := es[..|es| - 1];
      assert forall k :: 0 <= k < |pre| ==> pre[k] == es[k];
      ScanEntriesWithinDepth(path, pre, maxDepth);
      var last := es[|es| - 1];
      assert WellNamedEntry(last);
      match last
      case File(name) =>
        if !Ignored(name) {
          FileWithinDepth(path, name, maxDepth);
        }
      case Dir(name, sub) =>
        if !Ignored(name) {
          var below := Paths.Join(path, name);
          ScanWithinDepth(below, sub, maxDepth - 1);
          forall s | s in ScanSpec(below, sub, maxDepth - 1).value ensures WithinDepth(path, s, maxDepth) {
            WithinDepthBelow(path, name, s, maxDepth - 1);
          }
        }
      case Other(_) =>
      case Broken(_) =>
    }
  }

  lemma FileWithinDepth(path: string, name: string, depth: nat)
    requires depth >= 1 && Paths.PlainName(name) && !Ignored(name)
    ensures WithinDepth(path, Paths.Join(path, name), depth)
  {
    var segs := [name];
    JoinAllCons(path, name, []);
    assert segs == [name] + [];
    assert KeptComponents(segs);
  }

  lemma WithinDepthBelow(path: string, name: string, s: string, depth: nat)
    requires Paths.PlainName(name) && !Ignored(name)
    requires WithinDepth(Paths.Join(path, name), s, depth)
    ensures WithinDepth(path, s, depth + 1)
  {
    var segs :| 1 <= |segs| <= depth && KeptComponents(segs) && s == JoinAll(Paths.Join(path, name), segs);
    var all := [name] + segs;
    JoinAllCons(path, name, segs);
    KeptCons(name, segs);
    assert 1 <= |all| <= depth + 1 && KeptComponents(all) && s == JoinAll(path, all);
  }

  lemma KeptCons(name: string, segs: seq<string>)
    requires Paths.PlainName(name) && !Ignored(name) && KeptComponents(segs)
    ensures KeptComponents([name] + segs)
  {
    var all := [name] + segs;
    forall k | 0 <= k < |all| ensures Paths.PlainName(all[k]) && !Ignored(all[k]) {
      if k > 0 { assert all[k] == segs[k - 1]; }
    }
  }

  /** Descending through `n` first, then through `rest`. */
  lemma JoinAllCons(path: string, n: string, rest: seq<string>)
    ensures JoinAll(path, [n] + rest) == JoinAll(Paths.Join(path, n), rest)
  {
    assert ([n] + rest)[1..] == rest;
  }
}
