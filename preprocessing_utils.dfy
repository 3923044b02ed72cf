/** Preparing the download: the list of repositories (optionally one segment of it), the
    extensions never worth downloading, the parallelism parameters, and the chunks of
    repositories handed to the workers. */
module PreprocessingUtils {
  import opened Wrappers
  import opened Strings
  import opened CurationHelpers

  /** Python's `max(0, min(i, n))` after counting a negative index from the end, as a
      slice bound. */
  function SliceBound(i: int, n: nat): (b: nat)
    ensures b <= n
    ensures 0 <= i <= n ==> b == i
  {
    if i < 0 then (if n + i < 0 then 0 else n + i)
    else if i > n then n
    else i
  }

  /** Python's `s[i:j]`. */
  function PySlice<T>(s: seq<T>, i: int, j: int): (r: seq<T>)
    ensures 0 <= i <= j <= |s| ==> r == s[i..j]
  {
    var a, b := SliceBound(i, |s|), SliceBound(j, |s|);
    if a < b then s[a..b] else []
  }

  /** `int(x)` on a float: truncation toward zero. */
  function Trunc(x: real): (n: int)
    ensures x >= 0.0 ==> 0 <= n && n as real <= x < n as real + 1.0
    ensures x < 0.0 ==> n <= 0 && n as real - 1.0 < x <= n as real
  {
    if x >= 0.0 then x.Floor else -((-x).Floor)
  }

  /** `int(len(df) * frac)` */
  function FracN(n: nat, frac: real): (fn: int)
    ensures frac >= 0.0 ==> fn >= 0
    ensures 0.0 <= frac <= 1.0 ==> fn <= n
  {
    var x := n as real * frac;
    assert 0.0 <= frac <= 1.0 ==> 0.0 <= x <= n as real by {
      if 0.0 <= frac <= 1.0 {
        assert n as real * frac <= n as real * 1.0;
      }
    }
    Trunc(x)
  }

  /** `df.iloc[frac_n*(seg_num-1):frac_n*seg_num]` */
  function Segment(repos: seq<string>, frac: real, segNum: int): (seg: seq<string>)
    ensures Subsequence(seg, repos)
  {
    var fn := FracN(|repos|, frac);
    SliceIsSubsequence(repos, fn * (segNum - 1), fn * segNum);
    PySlice(repos, fn * (segNum - 1), fn * segNum)
  }

  /** `get_repos`: when a (truthy) local path is given, its table is returned whole, even
      when it is empty; otherwise the remote table is cut to a segment when `frac < 1`.
      Without a segment number a random sample is taken, which is passed in as
      `sample`. `local` is `Some` exactly when a truthy local path is given, and then
      holds the rows of its file. */
  function GetRepos(local: Option<seq<string>>, remote: seq<string>, frac: real,
                    segNum: Option<int>, sample: seq<string>): (r: seq<string>)
    ensures local.Some? ==> r == local.value
    ensures local.None? && frac >= 1.0 ==> r == remote
    ensures local.None? && frac < 1.0 && segNum.None? ==> r == sample
    ensures local.None? && frac < 1.0 && segNum.Some? ==> Subsequence(r, remote)
  {
    if local.Some? then local.value
    else if frac < 1.0 then
      if segNum.None? then sample
      else
        Segment(remote, frac, segNum.value)
    else remote
  }

  lemma {:induction false} ContiguousSubsequence<T>(s: seq<T>, a: nat, b: nat)
    requires a <= b <= |s|
    ensures Subsequence(s[a..b], s)
    decreases |s|
  {
    if a < b {
      if a == 0 {
        assert s[a..b][0] == s[0];
        assert s[a..b][1..] == s[1..][0..b - 1];
        ContiguousSubsequence(s[1..], 0, b - 1);
      } else {
        assert s[a..b] == s[1..][a - 1..b - 1] by {
          forall i | 0 <= i < b - a ensures s[a..b][i] == s[1..][a - 1..b - 1][i] {
            assert s[a..b][i] == s[a + i];
          }
        }
        ContiguousSubsequence(s[1..], a - 1, b - 1);
      }
    }
  }

  lemma SliceIsSubsequence<T>(s: seq<T>, i: int, j: int)
    ensures Subsequence(PySlice(s, i, j), s)
  {
    var a, b := SliceBound(i, |s|), SliceBound(j, |s|);
    if a < b {
      ContiguousSubsequence(s, a, b);
    }
  }

  /** With a non-negative share, segment `k` is positions `frac_n*(k-1)` up to
      `frac_n*k` of the table, cut at its end. */
  lemma SegmentPositions(repos: seq<string>, frac: real, k: int)
    requires k >= 1 && FracN(|repos|, frac) >= 0
    ensures var fn := FracN(|repos|, frac);
      Segment(repos, frac, k) == repos[Min(fn * (k - 1), |repos|)..Min(fn * k, |repos|)]
  {
    SegmentBounds(FracN(|repos|, frac), k);
  }

  lemma SegmentBounds(fn: int, k: int)
    requires fn >= 0 && k >= 1
    ensures 0 <= fn * (k - 1) <= fn * k
    ensures fn * (k - 1) + fn == fn * k
  {
  }

  /** Segments 1..k, one after the other, are the first `k * frac_n` repositories: the
      segments are disjoint and leave no gap. */
  function SegmentsUpTo(repos: seq<string>, frac: real, k: nat): seq<string> {
    if k == 0 then [] else SegmentsUpTo(repos, frac, k - 1) + Segment(repos, frac, k)
  }

  lemma {:induction false} SegmentsAdjacent(repos: seq<string>, frac: real, k: nat)
    requires FracN(|repos|, frac) >= 0
    ensures SegmentsUpTo(repos, frac, k) == repos[..Min(FracN(|repos|, frac) * k, |repos|)]
  {
    if k > 0 {
      var fn := FracN(|repos|, frac);
      SegmentsAdjacent(repos, frac, k - 1);
      SegmentPositions(repos, frac, k);
      SegmentBounds(fn, k);
      var a, b := Min(fn * (k - 1), |repos|), Min(fn * k, |repos|);
      assert repos[..a] + repos[a..b] == repos[..b];
    }
  }

  /** The fixed list of extensions never worth downloading. */
  const BaseBadExtensions: seq<string> := [
    "3gp", "aac", "aif", "aiff", "amr", "app", "au", "avi", "bin", "bmp", "bz2", "class", "csv", "dat", "db", "dll",
    "dng", "dylib", "egg", "eot", "exe", "flac", "flv", "gif", "gitignore", "glif", "gradle", "gz", "heic", "heif",
    "ico", "jar", "jpeg", "jpg", "lo", "lock", "log", "m4a", "m4v", "mid", "midi", "mkv", "mov", "mp3", "mp4",
    "mpeg", "mpg", "nar", "o", "ogg", "ogv", "opus", "otf", "p", "pdf", "pickle", "pkl", "png", "pyc", "pyd", "pyo",
    "ra", "ram", "rkt", "rm", "so", "ss", "svg", "t3", "tar", "tif", "tiff", "ts", "tsv", "ttf", "war", "wav",
    "webm", "webp", "wmv", "woff", "woff2", "xz", "zip", "zst"
  ]

  /** The base list holds 85 extensions, among them the one-letter "o" and "p". */
  lemma BaseBadExtensionsFacts()
    ensures |BaseBadExtensions| == 85
    ensures "o" in BaseBadExtensions && "p" in BaseBadExtensions
  {
    assert BaseBadExtensions[48] == "o";
    assert BaseBadExtensions[53] == "p";
  }

  /** `get_bad_extensions`: a new list holding the base extensions, extended in place by
      the additional ones when they are given and non-empty. */
  method GetBadExtensions(additionalExts: Option<seq<string>>) returns (badExt: seq<string>)
    ensures |badExt| >= 85 && badExt[..85] == BaseBadExtensions
    ensures additionalExts.Some? ==> badExt[85..] == additionalExts.value
    ensures additionalExts.None? ==> badExt == BaseBadExtensions
  {
    badExt := BaseBadExtensions;
    if additionalExts.Some? && additionalExts.value != [] {
      badExt := badExt + additionalExts.value;
    }
  }

  /** `get_parallel_params`: three threads per core and three threads' worth of
      repositories per chunk; overrides replace those keys and add others. */
  function ParallelParams(cpuCount: nat, overrides: Option<map<string, int>>): (m: map<string, int>)
    ensures "n_threads" in m && "chunk_size" in m
    ensures overrides.None? || overrides.value == map[] ==>
      m == map["n_threads" := 3 * cpuCount, "chunk_size" := 9 * cpuCount]
    ensures overrides.Some? ==> forall key | key in overrides.value :: key in m && m[key] == overrides.value[key]
    ensures forall key | key in m && (overrides.None? || key !in overrides.value) ::
      key in {"n_threads", "chunk_size"} && m[key] == (if key == "n_threads" then 3 else 9) * cpuCount
  {
    var base := map["n_threads" := cpuCount * 3, "chunk_size" := cpuCount * 3 * 3];
    if overrides.None? || overrides.value == map[] then base else base + overrides.value
  }

  /** A chunk size of zero makes `range` raise. */
  datatype ChunkError = ZeroStep

  /** `[repo_list[i:i + chunk_size] for i in range(0, len(repo_list), chunk_size)]` */
  function GetRepoChunks(repoList: seq<string>, chunkSize: int): (r: Result<seq<seq<string>>, ChunkError>)
    ensures r.Failure? <==> chunkSize == 0
    ensures chunkSize < 0 ==> r == Success([])
  {
    if chunkSize == 0 then Failure(ZeroStep)
    else if chunkSize < 0 then Success([])
    else Success(Chunks(repoList, chunkSize))
  }

  function ChunkCount(n: nat, k: nat): nat
    requires k > 0
  {
    (n + k - 1) / k
  }

  /** `repo_list[j * k : j * k + k]` */
  function Chunk<T>(s: seq<T>, k: nat, j: nat): seq<T> {
    s[Min(j * k, |s|)..Min(j * k + k, |s|)]
  }

  function Chunks<T>(s: seq<T>, k: nat): (r: seq<seq<T>>)
    requires k > 0
    ensures |r| == ChunkCount(|s|, k)
  {
    seq(ChunkCount(|s|, k), j requires 0 <= j => Chunk(s, k, j))
  }

  /** Chunk `j` starts at `j * k`, which lies inside the list for every chunk. */
  lemma ChunkStartInside(n: nat, k: nat, j: nat)
    requires k > 0 && j < ChunkCount(n, k)
    ensures j * k < n
  {
    assert j * k <= (ChunkCount(n, k) - 1) * k;
    assert ChunkCount(n, k) * k <= n + k - 1;
  }

  lemma MulStep(j: nat, k: nat)
    ensures (j + 1) * k == j * k + k
  {
  }

  /** Every chunk but the last has `k` entries and the last is not empty. */
  lemma ChunkSizes<T>(s: seq<T>, k: nat)
    requires k > 0
    ensures forall j | 0 <= j < |Chunks(s, k)| - 1 :: |Chunks(s, k)[j]| == k
    ensures |Chunks(s, k)| > 0 ==> |Chunks(s, k)[|Chunks(s, k)| - 1]| > 0
    ensures s == [] ==> Chunks(s, k) == []
  {
    var c := Chunks(s, k);
    forall j | 0 <= j < |c| - 1 ensures |c[j]| == k {
      FullChunk(s, k, j);
    }
    if |c| > 0 {
      LastChunkNonEmpty(s, k);
    }
  }

  lemma FullChunk<T>(s: seq<T>, k: nat, j: nat)
    requires k > 0 && j + 1 < ChunkCount(|s|, k)
    ensures |Chunk(s, k, j)| == k
  {
    ChunkStartInside(|s|, k, j + 1);
    MulStep(j, k);
  }

  lemma LastChunkNonEmpty<T>(s: seq<T>, k: nat)
    requires k > 0 && ChunkCount(|s|, k) > 0
    ensures |Chunk(s, k, ChunkCount(|s|, k) - 1)| > 0
  {
    ChunkStartInside(|s|, k, ChunkCount(|s|, k) - 1);
  }

  /** The list up to chunk `j`, then chunk `j`, is the list up to chunk `j + 1`. */
  lemma ChunkExtends<T>(s: seq<T>, k: nat, j: nat)
    ensures s[..Min(j * k, |s|)] + Chunk(s, k, j) == s[..Min((j + 1) * k, |s|)]
  {
    MulStep(j, k);
    var a, b := Min(j * k, |s|), Min(j * k + k, |s|);
    assert s[..a] + s[a..b] == s[..b];
  }

  /** The first `m` chunks, flattened, are the first `m * k` entries. */
  lemma {:induction false} ChunksPrefix<T>(s: seq<T>, k: nat, m: nat)
    requires k > 0 && m <= ChunkCount(|s|, k)
    ensures Flatten(Chunks(s, k)[..m]) == s[..Min(m * k, |s|)]
  {
    var c := Chunks(s, k);
    if m > 0 {
      ChunksPrefix(s, k, m - 1);
      assert c[..m] == c[..m - 1] + [c[m - 1]];
      FlattenAppend(c[..m - 1], [c[m - 1]]);
      FlattenOne(c[m - 1]);
      ChunkExtends(s, k, m - 1);
    }
  }

  lemma FlattenOne<T>(x: seq<T>)
    ensures Flatten([x]) == x
  {
    assert [x][1..] == [];
  }

  lemma CountCovers(n: nat, k: nat)
    requires k > 0
    ensures ChunkCount(n, k) * k >= n
  {
    assert (n + k - 1) / k * k > n + k - 1 - k;
  }

  /** Concatenating the chunks gives the list back. */
  lemma ChunksFlatten<T>(s: seq<T>, k: nat)
    requires k > 0
    ensures Flatten(Chunks(s, k)) == s
  {
    var c := Chunks(s, k);
    ChunksPrefix(s, k, |c|);
    assert c[..|c|] == c;
    CountCovers(|s|, k);
  }
}
