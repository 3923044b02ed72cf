/** Where the row filter writes its two tables. The input path is split from the right
    into four names, `<root>/<origin>/<lang>/<file>`; the destination is the input path
    with the origin directory's name replaced by the last component of the output
    directory, and the rejects path replaces ".parquet" in it by "_rejects.parquet". */
module OutputPaths {
  import opened Wrappers
  import opened Strings

  datatype PathParts = PathParts(root: string, origin: string, lang: string, fname: string)

  datatype Destinations = Destinations(destDir: string, destPath: string, rejectsPath: string)

  /** Unpacking `rsplit("/", 3)` into four names raises when there are fewer parts. */
  datatype PathError = TooFewComponents

  /** `root, origin, lang, fname = pq_path.rsplit("/", 3)` */
  function SplitPqPath(pqPath: string): (r: Result<PathParts, PathError>)
    ensures r.Success? <==> CountChar(pqPath, '/') >= 3
    ensures r.Success? ==>
      var p := r.value;
      && p.root + "/" + p.origin + "/" + p.lang + "/" + p.fname == pqPath
      && '/' !in p.origin && '/' !in p.lang && '/' !in p.fname
  {
    var parts := RSplit(pqPath, '/', 3);
    SplitFacts(pqPath, parts);
    if |parts| == 4 then Success(PathParts(parts[0], parts[1], parts[2], parts[3]))
    else Failure(TooFewComponents)
  }

  /** What `rsplit("/", 3)` gives: four parts exactly when there are three '/', and then
      the parts rejoin to the path and the last three hold no '/'. */
  lemma SplitFacts(pqPath: string, parts: seq<string>)
    requires parts == RSplit(pqPath, '/', 3)
    ensures |parts| == 4 <==> CountChar(pqPath, '/') >= 3
    ensures |parts| == 4 ==>
      && parts[0] + "/" + parts[1] + "/" + parts[2] + "/" + parts[3] == pqPath
      && '/' !in parts[1] && '/' !in parts[2] && '/' !in parts[3]
  {
    RSplitCount(pqPath, '/', 3);
    RSplitJoin(pqPath, '/', 3);
    RSplitFields(pqPath, '/', 3);
    if |parts| == 4 {
      JoinFour(parts);
    }
  }

  lemma JoinFour(parts: seq<string>)
    requires |parts| == 4
    ensures Join(parts, '/') == parts[0] + "/" + parts[1] + "/" + parts[2] + "/" + parts[3]
  {
    var a, b, c := parts[..1], parts[..2], parts[..3];
    assert a == [parts[0]] && b[..1] == a && c[..2] == b && parts[..3] == c;
    assert Join(b, '/') == parts[0] + "/" + parts[1];
    assert Join(c, '/') == parts[0] + "/" + parts[1] + "/" + parts[2];
  }

  /** Splitting a path built from four names, the last three free of '/', gives the
      four names back. */
  lemma SplitJoined(p: PathParts)
    requires '/' !in p.origin && '/' !in p.lang && '/' !in p.fname
    ensures SplitPqPath(p.root + "/" + p.origin + "/" + p.lang + "/" + p.fname) == Success(p)
  {
    var a := p.root + "/" + p.origin;
    var b := a + "/" + p.lang;
    var path := b + "/" + p.fname;
    assert RSplit(path, '/', 3) == [p.root, p.origin, p.lang, p.fname] by {
      assert RSplit(p.root, '/', 0) == [p.root];
      RSplitLast(p.root, p.origin, '/', 0);
      RSplitLast(a, p.lang, '/', 1);
      RSplitLast(b, p.fname, '/', 2);
    }
  }

  /** The three paths the filter derives, or the unpacking error. */
  function FilterPaths(pqPath: string, outputDir: string): (r: Result<Destinations, PathError>)
    ensures r.Success? <==> CountChar(pqPath, '/') >= 3
  {
    match SplitPqPath(pqPath)
    case Failure(e) => Failure(e)
    case Success(p) =>
      var destPath := ReplaceAll(pqPath, p.origin, LastField(outputDir, '/'));
      Success(Destinations(
        PathJoin(outputDir, p.lang),
        destPath,
        ReplaceAll(destPath, ".parquet", "_rejects.parquet")))
  }

  /** Replacing a name free of '/' works component by component. */
  lemma {:induction false} ReplaceComponents(root: string, o: string, lang: string, fname: string, pat: string, rep: string)
    requires '/' !in pat && pat != []
    ensures ReplaceAll(root + "/" + o + "/" + lang + "/" + fname, pat, rep)
         == ReplaceAll(root, pat, rep) + "/" + ReplaceAll(o, pat, rep) + "/" + ReplaceAll(lang, pat, rep) + "/" + ReplaceAll(fname, pat, rep)
  {
    ReplaceAcrossSlash(root + "/" + o + "/" + lang, fname, pat, rep);
    ReplaceAcrossSlash(root + "/" + o, lang, pat, rep);
    ReplaceAcrossSlash(root, o, pat, rep);
  }

  /** A name is replaced by the replacement text. */
  lemma ReplaceWhole(o: string, rep: string)
    requires o != []
    ensures ReplaceAll(o, o, rep) == rep
  {
    assert o + [] == o;
    ReplaceFront(o, [], rep);
  }

  /** Replacing a name that occurs only as the second-to-last directory renames just
      that directory. */
  lemma ReplaceOnlyComponent(root: string, o: string, lang: string, fname: string, rep: string)
    requires '/' !in o && o != []
    requires !Contains(root, o) && !Contains(lang, o) && !Contains(fname, o)
    ensures ReplaceAll(root + "/" + o + "/" + lang + "/" + fname, o, rep) == root + "/" + rep + "/" + lang + "/" + fname
  {
    ReplaceComponents(root, o, lang, fname, o, rep);
    ReplaceAbsent(root, o, rep);
    ReplaceAbsent(lang, o, rep);
    ReplaceAbsent(fname, o, rep);
    ReplaceWhole(o, rep);
  }

  /** Joining a name free of '/' onto a directory not ending in '/' inserts one '/'. */
  lemma JoinName(dir: string, name: string)
    requires !EndsWith(dir, "/") && dir != [] && '/' !in name && name != []
    ensures PathJoin(dir, name) == dir + "/" + name
    ensures !EndsWith(dir + "/" + name, "/")
  {
    assert !StartsWith(name, "/");
    var s := dir + "/" + name;
    assert s[|s| - 1] == name[|name| - 1];
  }

  /** A directory given as `<root>/<name>` does not end in '/' when name is not empty. */
  lemma UnderRoot(root: string, out: string)
    requires '/' !in out && out != []
    ensures LastField(root + "/" + out, '/') == out
    ensures !EndsWith(root + "/" + out, "/")
  {
    LastFieldAfter(root, out, '/');
    var s := root + "/" + out;
    assert s[|s| - 1] == out[|out| - 1];
  }

  /** When the output directory sits beside the origin directory under the same root and
      the origin's name occurs nowhere else in the path, the destination is
      `<output_dir>/<lang>/<file>`, inside the destination directory. */
  lemma {:induction false} SameRootDestination(p: PathParts, out: string)
    requires '/' !in p.origin && '/' !in p.lang && '/' !in p.fname && '/' !in out
    requires p.origin != [] && p.lang != [] && out != []
    requires !Contains(p.root, p.origin) && !Contains(p.lang, p.origin) && !Contains(p.fname, p.origin)
    ensures var d := FilterPaths(p.root + "/" + p.origin + "/" + p.lang + "/" + p.fname, p.root + "/" + out);
      && d.Success?
      && d.value.destDir == p.root + "/" + out + "/" + p.lang
      && d.value.destPath == p.root + "/" + out + "/" + p.lang + "/" + p.fname
  {
    SplitJoined(p);
    UnderRoot(p.root, out);
    JoinName(p.root + "/" + out, p.lang);
    ReplaceOnlyComponent(p.root, p.origin, p.lang, p.fname, out);
  }

  /** Conversely, when the output directory sits under another root, the destination stays
      under the input's root, and so is not the file's name inside the destination
      directory. */
  lemma OtherRootDestination(p: PathParts, outRoot: string, out: string)
    requires '/' !in p.origin && '/' !in p.lang && '/' !in p.fname && '/' !in out
    requires p.origin != [] && p.lang != [] && p.fname != [] && out != []
    requires !Contains(p.root, p.origin) && !Contains(p.lang, p.origin) && !Contains(p.fname, p.origin)
    requires outRoot != p.root
    ensures var d := FilterPaths(p.root + "/" + p.origin + "/" + p.lang + "/" + p.fname, outRoot + "/" + out);
      && d.Success?
      && d.value.destDir == outRoot + "/" + out + "/" + p.lang
      && d.value.destPath == p.root + "/" + out + "/" + p.lang + "/" + p.fname
      && d.value.destPath != PathJoin(d.value.destDir, p.fname)
  {
    DestinationsUnder(p, outRoot, out);
    var destDir := outRoot + "/" + out + "/" + p.lang;
    JoinName(outRoot + "/" + out, p.lang);
    JoinName(destDir, p.fname);
    RootsStayApart(p.root, outRoot, out, p.lang, p.fname);
  }

  /** The two paths of an input whose origin name is unique, for an output directory
      `<outRoot>/<out>`. */
  lemma DestinationsUnder(p: PathParts, outRoot: string, out: string)
    requires '/' !in p.origin && '/' !in p.lang && '/' !in p.fname && '/' !in out
    requires p.origin != [] && p.lang != [] && out != []
    requires !Contains(p.root, p.origin) && !Contains(p.lang, p.origin) && !Contains(p.fname, p.origin)
    ensures var d := FilterPaths(p.root + "/" + p.origin + "/" + p.lang + "/" + p.fname, outRoot + "/" + out);
      && d.Success?
      && d.value.destDir == outRoot + "/" + out + "/" + p.lang
      && d.value.destPath == p.root + "/" + out + "/" + p.lang + "/" + p.fname
  {
    SplitJoined(p);
    UnderRoot(outRoot, out);
    JoinName(outRoot + "/" + out, p.lang);
    ReplaceOnlyComponent(p.root, p.origin, p.lang, p.fname, out);
  }

  /** Paths spelled alike below different roots differ. */
  lemma RootsStayApart(root: string, outRoot: string, out: string, lang: string, fname: string)
    requires root != outRoot
    ensures root + "/" + out + "/" + lang + "/" + fname != outRoot + "/" + out + "/" + lang + "/" + fname
  {
    if |root| == |outRoot| {
      var i :| 0 <= i < |root| && root[i] != outRoot[i];
      assert (root + "/" + out + "/" + lang + "/" + fname)[i] == root[i];
      assert (outRoot + "/" + out + "/" + lang + "/" + fname)[i] == outRoot[i];
    }
  }

  /** The rejects table goes beside the destination: a destination ending in its only
      ".parquet" gets "_rejects.parquet" in its place. */
  lemma RejectsBesideDestination(pqPath: string, outputDir: string, stem: string)
    requires FilterPaths(pqPath, outputDir).Success?
    requires FilterPaths(pqPath, outputDir).value.destPath == stem + ".parquet"
    requires forall i | 0 <= i < |stem| :: !StartsWith((stem + ".parquet")[i..], ".parquet")
    ensures FilterPaths(pqPath, outputDir).value.rejectsPath == stem + "_rejects.parquet"
  {
    ReplaceSuffix(stem, ".parquet", "_rejects.parquet");
  }

  /** The replacement is not confined to the origin component: a file whose name begins
      with the origin's name is renamed too. */
  lemma RenamesFileToo(root: string, o: string, lang: string, rest: string, out: string)
    requires '/' !in o && '/' !in lang && '/' !in rest && '/' !in out
    requires o != [] && out != []
    requires !Contains(root, o) && !Contains(lang, o) && !Contains(rest, o)
    ensures var d := FilterPaths(root + "/" + o + "/" + lang + "/" + (o + rest), root + "/" + out);
      d.Success? && d.value.destPath == root + "/" + out + "/" + lang + "/" + (out + rest)
  {
    SplitJoined(PathParts(root, o, lang, o + rest));
    UnderRoot(root, out);
    ReplaceComponents(root, o, lang, o + rest, o, out);
    ReplaceAbsent(root, o, out);
    ReplaceAbsent(lang, o, out);
    ReplaceAbsent(rest, o, out);
    ReplaceWhole(o, out);
    ReplaceFront(o, rest, out);
  }

  /** The destination as the layout intends it: only the origin component is renamed. */
  function IntendedDestPath(p: PathParts, outputDir: string): (d: string)
    requires '/' !in p.lang && '/' !in p.fname
    ensures SplitPqPath(d) == Success(p.(origin := LastField(outputDir, '/')))
  {
    var name := LastField(outputDir, '/');
    SplitJoined(p.(origin := name));
    p.root + "/" + name + "/" + p.lang + "/" + p.fname
  }

  /** Under the same root, the intended destination is the file's name inside the
      destination directory, whatever names the path holds. */
  lemma IntendedUnderSameRoot(p: PathParts, out: string)
    requires '/' !in p.lang && '/' !in p.fname && '/' !in out && out != [] && p.lang != []
    ensures IntendedDestPath(p, p.root + "/" + out) == PathJoin(PathJoin(p.root + "/" + out, p.lang), p.fname)
  {
    UnderRoot(p.root, out);
    JoinName(p.root + "/" + out, p.lang);
    assert !StartsWith(p.fname, "/");
  }

  /** Where the replacement renames the file, the intended destination keeps its name:
      the two destinations differ whenever the output name differs from the origin's. */
  lemma {:induction false} IntendedKeepsFileName(root: string, o: string, lang: string, rest: string, out: string)
    requires '/' !in o && '/' !in lang && '/' !in rest && '/' !in out
    requires o != [] && out != [] && out != o
    requires !Contains(root, o) && !Contains(lang, o) && !Contains(rest, o)
    ensures var p := PathParts(root, o, lang, o + rest);
      var d := FilterPaths(root + "/" + o + "/" + lang + "/" + (o + rest), root + "/" + out);
      && IntendedDestPath(p, root + "/" + out) == root + "/" + out + "/" + lang + "/" + (o + rest)
      && d.Success? && d.value.destPath != IntendedDestPath(p, root + "/" + out)
  {
    RenamesFileToo(root, o, lang, rest, out);
    UnderRoot(root, out);
    HeadsDetermine(root + "/" + out + "/" + lang + "/", out, o, rest);
  }

  /** Texts equal up to a leading name have equal names. */
  lemma HeadsDetermine(prefix: string, x: string, y: string, rest: string)
    ensures prefix + (x + rest) == prefix + (y + rest) ==> x == y
  {
    if prefix + (x + rest) == prefix + (y + rest) {
      assert (prefix + (x + rest))[|prefix|..] == x + rest;
      assert (prefix + (y + rest))[|prefix|..] == y + rest;
      assert x == (x + rest)[..|x|];
      assert y == (y + rest)[..|y|];
    }
  }
}
