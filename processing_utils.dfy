/** Turning a cloned repository into (text, metadata) pairs: which files are looked at,
    which contents are kept, and how the output list is assembled while walking the
    repository's directories. The MIME detection, decoding and the directory walk are
    inputs of the model. */
module ProcessingUtils {
  import opened Wrappers
  import opened Strings
  import opened PreprocessingUtils

  /** `get_file_size`: the length in KiB, MiB or GiB, or unchanged for any other unit. */
  function GetFileSize(lenText: nat, bFormat: string): (size: real)
    ensures bFormat == "KB" ==> size * 1024.0 == lenText as real
    ensures bFormat == "MB" ==> size * 1048576.0 == lenText as real
    ensures bFormat == "GB" ==> size * 1073741824.0 == lenText as real
    ensures bFormat !in {"KB", "MB", "GB"} ==> size == lenText as real
  {
    if bFormat == "KB" then lenText as real / 1024.0
    else if bFormat == "MB" then lenText as real / 1048576.0
    else if bFormat == "GB" then lenText as real / 1073741824.0
    else lenText as real
  }

  /** `keep`: a text is dropped when it is larger than `maxMb` MiB or shorter than
      `minNChars` characters. */
  function Keep(x: string, maxMb: real, minNChars: int): (k: bool)
    ensures !k <==> |x| as real > maxMb * 1048576.0 || |x| < minNChars
  {
    !(GetFileSize(|x|, "MB") > maxMb || |x| < minNChars)
  }

  /** With the defaults (1 MiB, 16 characters) a text is kept exactly when it has between
      16 and 1048576 characters. */
  lemma KeepDefaults(x: string)
    ensures Keep(x, 1.0, 16) <==> 16 <= |x| <= 1048576
  {
  }

  /** `get_content`: a file whose MIME type is not text gives nothing; otherwise the
      UTF-8 decoding, or failing that the decoding in the detected encoding, is returned
      if it is kept. `fallback` is None when no encoding was detected or decoding in it
      failed. */
  function GetContent(mimeType: string, utf8: Option<string>, fallback: Option<string>): (r: Option<string>)
    ensures r.Some? ==> StartsWith(mimeType, "text") && 16 <= |r.value| <= 1048576
    ensures r.Some? && utf8.Some? ==> r == utf8
    ensures r.Some? && utf8.None? ==> r == fallback
    ensures StartsWith(mimeType, "text") && utf8.Some? && Keep(utf8.value, 1.0, 16) ==> r == utf8
    ensures StartsWith(mimeType, "text") && utf8.None? && fallback.Some? && Keep(fallback.value, 1.0, 16)
      ==> r == fallback
  {
    if !StartsWith(mimeType, "text") then None
    else
      var content := if utf8.Some? then utf8 else fallback;
      if content.Some? && Keep(content.value, 1.0, 16) then
        KeepDefaults(content.value);
        content
      else None
  }

  /** `_is_valid_file` on a file's name. */
  function IsValidFile(name: string, badExts: seq<string>): (b: bool)
    ensures b && name != [] ==> name[0] != '.'
    ensures b ==> (&& !Contains(name, ".git") && !Contains(name, "LICENSE")
                   && !Contains(name, "node_modules") && !Contains(name, ".min."))
  {
    && !Contains(name, ".git")
    && !StartsWith(name, ".")
    && !Contains(name, "LICENSE")
    && !Contains(name, "node_modules")
    && !Contains(name, ".min.")
    && LastField(name, '.') !in badExts
  }

  /** A name with a bad extension after its last dot is not valid. */
  lemma BadExtensionRejected(stem: string, ext: string, badExts: seq<string>)
    requires '.' !in ext && ext in badExts
    ensures !IsValidFile(stem + "." + ext, badExts)
  {
    LastFieldAfter(stem, ext, '.');
  }

  /** A name with no dot is its own extension, so a file named like a bad extension is
      not valid: "o" and "p" are rejected under the base list. */
  lemma DotlessNameRejected(name: string, badExts: seq<string>)
    requires '.' !in name && name in badExts
    ensures !IsValidFile(name, badExts)
  {
  }

  lemma OneLetterNamesRejected()
    ensures !IsValidFile("o", BaseBadExtensions) && !IsValidFile("p", BaseBadExtensions)
  {
    BaseBadExtensionsFacts();
    DotlessNameRejected("o", BaseBadExtensions);
    DotlessNameRejected("p", BaseBadExtensions);
  }

  /** One directory of `os.walk`: its path and the names of its files. */
  datatype WalkStep = WalkStep(dir: string, files: seq<string>)

  datatype Meta = Meta(repoName: string, fileName: string, mimeType: string)

  datatype Entry = Entry(text: string, meta: Meta)

  /** `f.replace(repo_dir + '/', '')` */
  function FileName(path: string, repoDir: string): (name: string)
    ensures !Contains(path, repoDir + "/") ==> name == path
  {
    if Contains(path, repoDir + "/") then ReplaceAll(path, repoDir + "/", "")
    else
      ReplaceAbsent(path, repoDir + "/", "");
      ReplaceAll(path, repoDir + "/", "")
  }

  /** `[os.path.join(dir, f) for f in files if _is_valid_file(f)]` */
  function ValidPaths(dir: string, files: seq<string>, badExts: seq<string>): (paths: seq<string>)
    ensures |paths| <= |files|
  {
    if files == [] then []
    else
      var last := files[|files| - 1];
      ValidPaths(dir, files[..|files| - 1], badExts)
        + (if IsValidFile(last, badExts) then [PathJoin(dir, last)] else [])
  }

  /** The valid paths of the whole walk, directory after directory. */
  function WalkPaths(walk: seq<WalkStep>, badExts: seq<string>): (paths: seq<string>)
    ensures forall p | p in paths :: exists i | 0 <= i < |walk| :: p in ValidPaths(walk[i].dir, walk[i].files, badExts)
    ensures forall i, p | 0 <= i < |walk| && p in ValidPaths(walk[i].dir, walk[i].files, badExts) :: p in paths
  {
    if walk == [] then []
    else
      var init, last := walk[..|walk| - 1], walk[|walk| - 1];
      var front := WalkPaths(init, badExts);
      assert forall i | 0 <= i < |init| :: init[i] == walk[i];
      assert forall i | 0 <= i < |walk| - 1 :: walk[i] == init[i];
      front + ValidPaths(last.dir, last.files, badExts)
  }

  function MakeEntry(repoData: string, repoDir: string, path: string, text: string,
                     mime: string -> string): Entry {
    Entry(text, Meta(repoData, FileName(path, repoDir), mime(path)))
  }

  /** One pair per path whose content was read, in order. */
  function Entries(repoData: string, repoDir: string, paths: seq<string>,
                   content: string -> Option<string>, mime: string -> string): (out: seq<Entry>)
    ensures |out| <= |paths|
  {
    if paths == [] then []
    else
      var last := paths[|paths| - 1];
      Entries(repoData, repoDir, paths[..|paths| - 1], content, mime)
        + (if content(last).Some? then [MakeEntry(repoData, repoDir, last, content(last).value, mime)] else [])
  }

  /** Reading one more path appends at most its own pair. */
  lemma EntriesStep(repoData: string, repoDir: string, paths: seq<string>, i: nat,
                    content: string -> Option<string>, mime: string -> string)
    requires i < |paths|
    ensures Entries(repoData, repoDir, paths[..i + 1], content, mime)
         == Entries(repoData, repoDir, paths[..i], content, mime)
            + (if content(paths[i]).Some? then [MakeEntry(repoData, repoDir, paths[i], content(paths[i]).value, mime)] else [])
  {
    assert paths[..i + 1][..i] == paths[..i];
  }

  lemma {:induction false} EntriesAppend(repoData: string, repoDir: string, a: seq<string>, b: seq<string>,
                                         content: string -> Option<string>, mime: string -> string)
    ensures Entries(repoData, repoDir, a + b, content, mime)
         == Entries(repoData, repoDir, a, content, mime) + Entries(repoData, repoDir, b, content, mime)
  {
    if b == [] {
      assert a + b == a;
    } else {
      var init := b[..|b| - 1];
      assert (a + b)[..|a + b| - 1] == a + init;
      assert (a + b)[|a + b| - 1] == b[|b| - 1];
      EntriesAppend(repoData, repoDir, a, init, content, mime);
    }
  }

  /** Every pair comes from a path whose content was read, with that content and that
      path's name and MIME type. */
  lemma {:induction false} EntryOrigin(repoData: string, repoDir: string, paths: seq<string>,
                                       content: string -> Option<string>, mime: string -> string, e: Entry)
    requires e in Entries(repoData, repoDir, paths, content, mime)
    ensures exists p | p in paths ::
      (content(p) == Some(e.text) && e == MakeEntry(repoData, repoDir, p, e.text, mime))
  {
    var init, last := paths[..|paths| - 1], paths[|paths| - 1];
    if e in Entries(repoData, repoDir, init, content, mime) {
      EntryOrigin(repoData, repoDir, init, content, mime, e);
      var p :| p in init && content(p) == Some(e.text) && e == MakeEntry(repoData, repoDir, p, e.text, mime);
      assert p in paths;
    } else {
      assert content(last) == Some(e.text);
    }
  }

  /** Every path whose content was read gives its pair. */
  lemma {:induction false} PathEmitted(repoData: string, repoDir: string, paths: seq<string>,
                                       content: string -> Option<string>, mime: string -> string, p: string)
    requires p in paths && content(p).Some?
    ensures MakeEntry(repoData, repoDir, p, content(p).value, mime) in Entries(repoData, repoDir, paths, content, mime)
  {
    var init, last := paths[..|paths| - 1], paths[|paths| - 1];
    if p != last {
      assert paths == init + [last];
      assert p in init;
      PathEmitted(repoData, repoDir, init, content, mime, p);
    }
  }

  /** The valid paths of a directory are the joined names of its valid files. */
  lemma {:induction false} ValidPathsOf(dir: string, files: seq<string>, badExts: seq<string>, p: string)
    ensures p in ValidPaths(dir, files, badExts) <==>
      exists f | f in files :: IsValidFile(f, badExts) && p == PathJoin(dir, f)
  {
    if files != [] {
      var init, last := files[..|files| - 1], files[|files| - 1];
      assert files == init + [last];
      ValidPathsOf(dir, init, badExts, p);
      var tail := if IsValidFile(last, badExts) then [PathJoin(dir, last)] else [];
      assert ValidPaths(dir, files, badExts) == ValidPaths(dir, init, badExts) + tail;
      assert p in tail <==> IsValidFile(last, badExts) && p == PathJoin(dir, last);
      if p in ValidPaths(dir, init, badExts) {
        var f :| f in init && IsValidFile(f, badExts) && p == PathJoin(dir, f);
        assert f in files;
      }
      if exists f | f in files :: IsValidFile(f, badExts) && p == PathJoin(dir, f) {
        var f :| f in files && IsValidFile(f, badExts) && p == PathJoin(dir, f);
        if f != last {
          assert f in init;
        }
      }
    }
  }

  /** A file directly in the repository directory is named by its own name. */
  lemma TopLevelFileName(repoDir: string, f: string)
    requires repoDir != [] && !EndsWith(repoDir, "/")
    requires f != [] && '/' !in f
    ensures FileName(PathJoin(repoDir, f), repoDir) == f
  {
    assert !StartsWith(f, "/");
    var pat := repoDir + "/";
    assert PathJoin(repoDir, f) == pat + f;
    ReplaceFront(pat, f, "");
    LacksChar(f, pat, '/');
    ReplaceAbsent(f, pat, "");
  }

  /** A file below a subdirectory is named by its path relative to the repository, unless
      the repository's path recurs in that relative path. */
  lemma NestedFileName(repoDir: string, rel: string, f: string)
    requires repoDir != [] && rel != [] && !EndsWith(rel, "/") && f != [] && !StartsWith(f, "/")
    requires !Contains(rel + "/" + f, repoDir + "/")
    ensures FileName(PathJoin(repoDir + "/" + rel, f), repoDir) == rel + "/" + f
  {
    var pat := repoDir + "/";
    var dir := repoDir + "/" + rel;
    assert EndsWith(dir, "/") <==> EndsWith(rel, "/") by {
      assert dir[|dir| - 1] == rel[|rel| - 1];
    }
    assert PathJoin(dir, f) == pat + (rel + "/" + f);
    ReplaceFront(pat, rel + "/" + f, "");
    ReplaceAbsent(rel + "/" + f, pat, "");
  }

  /** `process_repo`: walk the directories in order and emit, directory by directory, a
      pair for every valid file whose content was read. `content` stands for
      `get_content` with any exception other than a timeout read as None, and `mime` for
      the MIME detection with a missing file read as "n/a". */
  method ProcessRepo(repoData: string, repoDir: string, badExts: seq<string>, walk: seq<WalkStep>,
                     content: string -> Option<string>, mime: string -> string)
    returns (output: seq<Entry>)
    ensures output == Entries(repoData, repoDir, WalkPaths(walk, badExts), content, mime)
  {
    output := [];
    var w := 0;
    while w < |walk|
      invariant 0 <= w <= |walk|
      invariant output == Entries(repoData, repoDir, WalkPaths(walk[..w], badExts), content, mime)
    {
      output := EmitDirectory(repoData, repoDir, badExts, walk[w], content, mime, output);
      EntriesAppend(repoData, repoDir, WalkPaths(walk[..w], badExts),
                    ValidPaths(walk[w].dir, walk[w].files, badExts), content, mime);
      assert walk[..w + 1][..w] == walk[..w];
      w := w + 1;
    }
    assert walk[..|walk|] == walk;
  }

  /** One directory: list the valid files, their names relative to the repository,
      their MIME types and their contents, then append a pair for every file whose
      content was read. */
  method EmitDirectory(repoData: string, repoDir: string, badExts: seq<string>, step: WalkStep,
                       content: string -> Option<string>, mime: string -> string, output: seq<Entry>)
    returns (output': seq<Entry>)
    ensures output' == output
      + Entries(repoData, repoDir, ValidPaths(step.dir, step.files, badExts), content, mime)
  {
    var validFiles := ValidFilesOf(step, badExts);
    var filenames := seq(|validFiles|, i requires 0 <= i < |validFiles| => FileName(validFiles[i], repoDir));
    var extensions := GetExtensions(validFiles, mime);
    var textOutputs := ReadContents(validFiles, content);
    output' := AppendEntries(repoData, repoDir, validFiles, filenames, extensions, textOutputs,
                             content, mime, output);
  }

  /** The last loop of a directory: a pair for every file whose content was read. */
  method AppendEntries(repoData: string, repoDir: string, validFiles: seq<string>,
                       filenames: seq<string>, extensions: seq<string>, textOutputs: seq<Option<string>>,
                       content: string -> Option<string>, mime: string -> string, output: seq<Entry>)
    returns (output': seq<Entry>)
    requires |filenames| == |extensions| == |textOutputs| == |validFiles|
    requires forall i | 0 <= i < |validFiles| :: filenames[i] == FileName(validFiles[i], repoDir)
    requires forall i | 0 <= i < |validFiles| :: extensions[i] == mime(validFiles[i])
    requires forall i | 0 <= i < |validFiles| :: textOutputs[i] == content(validFiles[i])
    ensures output' == output + Entries(repoData, repoDir, validFiles, content, mime)
  {
    output' := output;
    var i := 0;
    while i < |textOutputs|
      invariant 0 <= i <= |textOutputs|
      invariant output' == output + Entries(repoData, repoDir, validFiles[..i], content, mime)
    {
      EntriesStep(repoData, repoDir, validFiles, i, content, mime);
      if textOutputs[i].Some? {
        output' := output' + [Entry(textOutputs[i].value, Meta(repoData, filenames[i], extensions[i]))];
      }
      i := i + 1;
    }
    assert validFiles[..|validFiles|] == validFiles;
  }

  /** `_get_extensions`: the MIME type of each file, in order. */
  method GetExtensions(files: seq<string>, mime: string -> string) returns (exts: seq<string>)
    ensures |exts| == |files| && forall i | 0 <= i < |files| :: exts[i] == mime(files[i])
  {
    exts := [];
    for k := 0 to |files|
      invariant |exts| == k && forall i | 0 <= i < k :: exts[i] == mime(files[i])
    {
      exts := exts + [mime(files[k])];
    }
  }

  /** The content of each file, in order. */
  method ReadContents(files: seq<string>, content: string -> Option<string>)
    returns (textOutputs: seq<Option<string>>)
    ensures |textOutputs| == |files| && forall i | 0 <= i < |files| :: textOutputs[i] == content(files[i])
  {
    textOutputs := [];
    for k := 0 to |files|
      invariant |textOutputs| == k && forall i | 0 <= i < k :: textOutputs[i] == content(files[i])
    {
      textOutputs := textOutputs + [content(files[k])];
    }
  }

  /** The first loop of a directory: its valid files, joined to its path. */
  method ValidFilesOf(step: WalkStep, badExts: seq<string>) returns (validFiles: seq<string>)
    ensures validFiles == ValidPaths(step.dir, step.files, badExts)
  {
    validFiles := [];
    var j := 0;
    while j < |step.files|
      invariant 0 <= j <= |step.files|
      invariant validFiles == ValidPaths(step.dir, step.files[..j], badExts)
    {
      var f := step.files[j];
      assert step.files[..j + 1][..j] == step.files[..j];
      if IsValidFile(f, badExts) {
        validFiles := validFiles + [PathJoin(step.dir, f)];
      }
      j := j + 1;
    }
    assert step.files[..|step.files|] == step.files;
  }
}
