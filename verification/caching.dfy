/** The on-disk memoisation layer: each pipeline stage stores its result
    in `<video path without extension>.d/cache<ext>` and, on a later call
    for the same video and stage, reads it back instead of recomputing.
    The file system is a map from whole paths to nodes; the wrapped stage's
    result is an input, and `computed` records whether the stage ran. */
module Caching {
  import opened Common

  /** A regular file with its text, a directory, or a symbolic link. */
  datatype Node = File(contents: string) | Dir | Link(target: string)

  type Fs = map<string, Node>

  /** What a decorated call returns, the file system after it, and whether
      the wrapped stage was called. */
  datatype Run<T> = Run(value: T, fs: Fs, computed: bool)

  /** Symbolic links followed before the kernel gives up with `ELOOP`. */
  const MaxSymlinkHops: nat := 40

  /** The path `p` names once its links are followed, or `None` for a chain
      longer than the hop limit. The final path need not exist. */
  function Resolve(fs: Fs, p: string, hops: nat): (r: Option<string>)
    ensures r.Some? ==> !(r.value in fs && fs[r.value].Link?)
    decreases hops
  {
    if p in fs && fs[p].Link? then
      if hops == 0 then None else Resolve(fs, fs[p].target, hops - 1)
    else Some(p)
  }

  /** `os.path.exists(p)`: following links, something is there. */
  predicate Exists(fs: Fs, p: string)
  {
    var r := Resolve(fs, p, MaxSymlinkHops);
    r.Some? && r.value in fs
  }

  /** `os.path.isdir(p)`. */
  predicate IsDir(fs: Fs, p: string)
  {
    Exists(fs, p) && fs[Resolve(fs, p, MaxSymlinkHops).value].Dir?
  }

  /** Reading the whole file at `p`, which exists. */
  function ReadFile(fs: Fs, p: string): (r: Result<string>)
    requires Exists(fs, p)
    ensures r.Ok? <==> fs[Resolve(fs, p, MaxSymlinkHops).value].File?
  {
    match fs[Resolve(fs, p, MaxSymlinkHops).value]
    case File(contents) => Ok(contents)
    case _ => Raises("IsADirectoryError")
  }

  /** `open(p, 'w').write(s)`: creates or truncates the file the path
      resolves to. */
  function WriteFile(fs: Fs, p: string, s: string): (r: Result<Fs>)
    ensures r.Ok? ==> Resolve(fs, p, MaxSymlinkHops).Some?
    ensures r.Ok? ==> var q := Resolve(fs, p, MaxSymlinkHops).value;
                      r.value == fs[q := File(s)]
  {
    match Resolve(fs, p, MaxSymlinkHops)
    case None => Raises("OSError")
    case Some(q) =>
      if q in fs && fs[q].Dir? then Raises("IsADirectoryError")
      else Ok(fs[q := File(s)])
  }

  /** `os.makedirs(d, exist_ok=True)` for a directory whose parents exist:
      nothing changes if `d` is (a link to) a directory; anything else
      already at `d` is an error. */
  function MakeDirs(fs: Fs, d: string): (r: Result<Fs>)
    ensures r.Ok? ==> IsDir(r.value, d)
    ensures r.Ok? <==> IsDir(fs, d) || d !in fs
    ensures r.Ok? && IsDir(fs, d) ==> r.value == fs
  {
    if IsDir(fs, d) then Ok(fs)
    else if d in fs then Raises("FileExistsError")
    else Ok(fs[d := Dir])
  }

  /** The index of the last `c` in `s`, or -1. */
  function RFind(s: string, c: char): (i: int)
    ensures -1 <= i < |s|
    ensures i >= 0 ==> s[i] == c
    ensures forall k :: i < k < |s| ==> s[k] != c
  {
    if s == [] then -1
    else if s[|s| - 1] == c then |s| - 1
    else RFind(s[..|s| - 1], c)
  }

  /** POSIX `os.path.splitext`: the extension is the part from the last
      dot of the last path component, unless only dots precede that dot in
      the component. */
  function SplitExt(p: string): (r: (string, string))
    ensures r.0 + r.1 == p
    ensures r.1 == [] || (r.1[0] == '.' && '/' !in r.1 && '.' !in r.1[1..])
  {
    var sep := RFind(p, '/');
    var dot := RFind(p, '.');
    if dot > sep && exists i :: sep + 1 <= i < dot && p[i] != '.' then
      assert p[..dot] + p[dot..] == p;
      assert forall k :: 0 <= k < |p| - dot ==> p[dot..][k] == p[dot + k];
      (p[..dot], p[dot..])
    else
      (p, [])
  }

  /** POSIX `os.path.join(a, b)`. */
  function PathJoin(a: string, b: string): string
  {
    if b != [] && b[0] == '/' then b
    else if a == [] || a[|a| - 1] == '/' then a + b
    else a + "/" + b
  }

  /** `get_cache_directory(video_path)` without its `makedirs`. */
  function CacheDir(videoPath: string): (d: string)
    ensures d == SplitExt(videoPath).0 + ".d"
  {
    SplitExt(videoPath).0 + ".d"
  }

  /** `get_cache_file(video_path, file_ext)` without its `makedirs`: the
      file is always `cache<ext>` inside the cache directory. */
  function CacheFile(videoPath: string, ext: string): (f: string)
    ensures f == CacheDir(videoPath) + "/cache" + ext
  {
    var d := CacheDir(videoPath);
    assert d[|d| - 1] == 'd';
    PathJoin(d, "cache" + ext)
  }

  /** `if video_path:` on a string or `None`. */
  predicate Truthy(s: Option<string>)
  {
    s.Some? && s.value != []
  }

  /** The text `cached_file` returns when the stage's result is falsy. */
  function Failed(name: string): string
  {
    name + " failed"
  }

  /** The lookup shared by every decorator once the cache directory of
      `videoPath` is known to exist: a hit reads the file, a miss runs
      `miss`. */
  function Lookup<T>(fs: Fs, file: string, onHit: string -> Result<T>, miss: Result<Run<T>>)
    : (r: Result<Run<T>>)
  {
    if Exists(fs, file) then
      match ReadFile(fs, file)
      case Raises(e) => Raises(e)
      case Ok(s) =>
        match onHit(s)
        case Raises(e) => Raises(e)
        case Ok(v) => Ok(Run(v, fs, false))
    else miss
  }

  /** What `cached_file` does after a miss (or with no cache): a falsy
      result is reported as a failure and not stored. */
  function StoreText(fs: Fs, name: string, file: Option<string>, result: Option<string>)
    : (r: Result<Run<string>>)
    ensures !Truthy(result) ==> r == Ok(Run(Failed(name), fs, true))
    ensures Truthy(result) && file.None? ==> r == Ok(Run(result.value, fs, true))
  {
    if !Truthy(result) then Ok(Run(Failed(name), fs, true))
    else match file
      case None => Ok(Run(result.value, fs, true))
      case Some(f) =>
        match WriteFile(fs, f, result.value)
        case Raises(e) => Raises(e)
        case Ok(fs') => Ok(Run(result.value, fs', true))
  }

  /** `cached_file(file_ext)(func)(video_path)` of mst/steps: a falsy path
      skips the cache altogether. `result` is what `func` returns. */
  function CachedFile(name: string, ext: string, videoPath: Option<string>, fs: Fs,
                      result: Option<string>): (r: Result<Run<string>>)
    ensures !Truthy(videoPath) ==> r == StoreText(fs, name, None, result)
  {
    if Truthy(videoPath) then
      match MakeDirs(fs, CacheDir(videoPath.value))
      case Raises(e) => Raises(e)
      case Ok(fs1) =>
        var file := CacheFile(videoPath.value, ext);
        Lookup(fs1, file, (s: string) => Ok(s), StoreText(fs1, name, Some(file), result))
    else
      StoreText(fs, name, None, result)
  }

  /** `json.load` of the stored text, which may fail. */
  function Decode<V>(load: string -> Option<V>, s: string): Result<V>
  {
    match load(s)
    case None => Raises("JSONDecodeError")
    case Some(v) => Ok(v)
  }

  /** What `cached_file_object` does after a miss: the result is stored
      whatever it is. */
  function StoreObject<V>(fs: Fs, file: Option<string>, result: V, dump: V -> string)
    : (r: Result<Run<V>>)
    ensures file.None? ==> r == Ok(Run(result, fs, true))
  {
    match file
    case None => Ok(Run(result, fs, true))
    case Some(f) =>
      match WriteFile(fs, f, dump(result))
      case Raises(e) => Raises(e)
      case Ok(fs') => Ok(Run(result, fs', true))
  }

  /** `cached_file_object(file_ext)(func)(video_path)` of mst/steps, with
      `json.dump`/`json.load` as `dump`/`load`. */
  function CachedFileObject<V>(ext: string, videoPath: Option<string>, fs: Fs, result: V,
                               dump: V -> string, load: string -> Option<V>)
    : (r: Result<Run<V>>)
    ensures !Truthy(videoPath) ==> r == Ok(Run(result, fs, true))
  {
    if Truthy(videoPath) then
      match MakeDirs(fs, CacheDir(videoPath.value))
      case Raises(e) => Raises(e)
      case Ok(fs1) =>
        var file := CacheFile(videoPath.value, ext);
        Lookup(fs1, file, (s: string) => Decode(load, s), StoreObject(fs1, Some(file), result, dump))
    else
      Ok(Run(result, fs, true))
  }

  /** `cached_file` of video_processing_helpers: no path guard, so `None`
      fails in `splitext` and `""` uses `.d/cache<ext>`. */
  function CachedFileUnguarded(name: string, ext: string, videoPath: Option<string>, fs: Fs,
                               result: Option<string>): (r: Result<Run<string>>)
    ensures videoPath.None? ==> r == Raises("TypeError")
  {
    match videoPath
    case None => Raises("TypeError")
    case Some(p) =>
      match MakeDirs(fs, CacheDir(p))
      case Raises(e) => Raises(e)
      case Ok(fs1) =>
        var file := CacheFile(p, ext);
        Lookup(fs1, file, (s: string) => Ok(s), StoreText(fs1, name, Some(file), result))
  }

  /** `cached_file_object` of video_processing_helpers. */
  function CachedFileObjectUnguarded<V>(ext: string, videoPath: Option<string>, fs: Fs, result: V,
                                        dump: V -> string, load: string -> Option<V>)
    : (r: Result<Run<V>>)
    ensures videoPath.None? ==> r == Raises("TypeError")
  {
    match videoPath
    case None => Raises("TypeError")
    case Some(p) =>
      match MakeDirs(fs, CacheDir(p))
      case Raises(e) => Raises(e)
      case Ok(fs1) =>
        var file := CacheFile(p, ext);
        Lookup(fs1, file, (s: string) => Decode(load, s), StoreObject(fs1, Some(file), result, dump))
  }

  /** `k` is an entry directly inside directory `d`. */
  predicate Child(d: string, k: string)
  {
    |k| > |d| + 1 && k[..|d| + 1] == d + "/" && '/' !in k[|d| + 1..]
  }

  /** An entry `clear_cache_directory` unlinks: a regular file or a link
      directly inside `d`. */
  predicate Removable(fs: Fs, d: string, k: string)
    requires k in fs
  {
    Child(d, k) && !fs[k].Dir?
  }

  /** `clear_cache_directory(video_path)`: the directory's own regular files
      and links are removed; it and its sub-directories remain. */
  function ClearCacheDirectory(videoPath: string, fs: Fs): (r: Result<Fs>)
    ensures r.Ok? <==> MakeDirs(fs, CacheDir(videoPath)).Ok?
  {
    match MakeDirs(fs, CacheDir(videoPath))
    case Raises(e) => Raises(e)
    case Ok(fs1) =>
      var d := CacheDir(videoPath);
      if IsDir(fs1, d) then
        var target := Resolve(fs1, d, MaxSymlinkHops).value;
        Ok(map k | k in fs1 && !Removable(fs1, target, k) :: fs1[k])
      else Ok(fs1)
  }

  // ---------------------------------------------------------------------
  // Properties

  /** Changing the node at a path that is not a link, to one that is not a
      link, changes no resolution. */
  lemma {:induction false} ResolveStable(fs: Fs, q: string, n: Node, p: string, hops: nat)
    requires !(q in fs && fs[q].Link?) && !n.Link?
    ensures Resolve(fs[q := n], p, hops) == Resolve(fs, p, hops)
    decreases hops
  {
    var fs' := fs[q := n];
    if p in fs && fs[p].Link? && hops > 0 {
      assert p != q && fs'[p] == fs[p];
      ResolveStable(fs, q, n, fs[p].target, hops - 1);
    }
  }

  /** Storing through a path and reading it back gives what was stored, and
      every other path resolves and reads as before. */
  lemma WriteThenRead(fs: Fs, p: string, s: string, other: string)
    requires WriteFile(fs, p, s).Ok?
    ensures var fs' := WriteFile(fs, p, s).value;
            && Exists(fs', p) && ReadFile(fs', p) == Ok(s)
            && Resolve(fs', other, MaxSymlinkHops) == Resolve(fs, other, MaxSymlinkHops)
  {
    var q := Resolve(fs, p, MaxSymlinkHops).value;
    ResolveStable(fs, q, File(s), p, MaxSymlinkHops);
    ResolveStable(fs, q, File(s), other, MaxSymlinkHops);
  }

  /** Writing a file keeps a directory a directory. */
  lemma WriteKeepsDir(fs: Fs, p: string, s: string, d: string)
    requires WriteFile(fs, p, s).Ok? && IsDir(fs, d)
    ensures IsDir(WriteFile(fs, p, s).value, d)
  {
    WriteThenRead(fs, p, s, d);
  }

  /** The extension splits off the file's own suffix only: two paths that
      differ only in extension share the cache file of every stage. */
  lemma SameStemSameCache(p: string, q: string, ext: string)
    requires SplitExt(p).0 == SplitExt(q).0
    ensures CacheFile(p, ext) == CacheFile(q, ext)
  {
  }

  /** Different stages of one video never share a cache file. */
  lemma StagesDoNotCollide(p: string, ext1: string, ext2: string)
    requires ext1 != ext2
    ensures CacheFile(p, ext1) != CacheFile(p, ext2)
  {
    var pre := CacheDir(p) + "/cache";
    assert CacheFile(p, ext1)[|pre|..] == ext1;
    assert CacheFile(p, ext2)[|pre|..] == ext2;
  }

  lemma {:induction false} RFindSkip(s: string, t: string, c: char)
    requires c !in t
    ensures RFind(s + t, c) == RFind(s, c)
    decreases |t|
  {
    if t == [] {
      assert s + t == s;
    } else {
      var t' := t[..|t| - 1];
      assert (s + t)[..|s + t| - 1] == s + t';
      assert forall k :: 0 <= k < |t'| ==> t'[k] == t[k];
      RFindSkip(s, t', c);
    }
  }

  /** A final component `stem.ext` whose stem does not end in a dot splits
      into the stem and `.ext`. */
  lemma SplitExtOfStem(stem: string, e: string)
    requires stem != [] && stem[|stem| - 1] != '/' && stem[|stem| - 1] != '.'
    requires '/' !in e && '.' !in e
    ensures SplitExt(stem + "." + e) == (stem, "." + e)
  {
    var p := stem + "." + e;
    assert p == (stem + ".") + e;
    RFindSkip(stem + ".", e, '.');
    assert (stem + ".")[..|stem|] == stem;
    assert RFind(stem + ".", '.') == |stem|;
    assert p == stem + ("." + e);
    assert '/' !in "." + e;
    RFindSkip(stem, "." + e, '/');
    var sep := RFind(stem, '/');
    assert sep < |stem| - 1;
    assert p[|stem| - 1] != '.';
    assert p[..|stem|] == stem;
    assert p[|stem|..] == "." + e;
  }

  /** `v.mp4` and `v.mkv`, or any two files that differ only in extension,
      share their cache. */
  lemma ExtensionCollision(stem: string, e1: string, e2: string, ext: string)
    requires stem != [] && stem[|stem| - 1] != '/' && stem[|stem| - 1] != '.'
    requires '/' !in e1 && '.' !in e1 && '/' !in e2 && '.' !in e2
    ensures CacheFile(stem + "." + e1, ext) == CacheFile(stem + "." + e2, ext)
            == stem + ".d/cache" + ext
  {
    CacheFileOfStem(stem, e1, ext);
    CacheFileOfStem(stem, e2, ext);
  }

  /** The cache file of `stem.e` lives in the directory `stem.d`. */
  lemma CacheFileOfStem(stem: string, e: string, ext: string)
    requires stem != [] && stem[|stem| - 1] != '/' && stem[|stem| - 1] != '.'
    requires '/' !in e && '.' !in e
    ensures CacheFile(stem + "." + e, ext) == stem + ".d/cache" + ext
  {
    SplitExtOfStem(stem, e);
    assert CacheDir(stem + "." + e) == stem + ".d";
  }

  /** A leading dot does not start an extension: `.bashrc` has none. */
  lemma DotFileHasNoExtension(name: string)
    requires '/' !in name && '.' !in name
    ensures SplitExt("." + name) == ("." + name, "")
  {
    assert '/' !in "." + name;
    RFindSkip([], "." + name, '/');
    RFindSkip(".", name, '.');
    assert [] + ("." + name) == "." + name;
  }

  /** On a hit `cached_file` returns the stored text without running the
      stage, and no file changes. */
  lemma CachedFileHit(name: string, ext: string, p: string, fs: Fs, result: Option<string>)
    requires p != [] && IsDir(fs, CacheDir(p))
    requires Exists(fs, CacheFile(p, ext)) && ReadFile(fs, CacheFile(p, ext)).Ok?
    ensures CachedFile(name, ext, Some(p), fs, result)
         == Ok(Run(ReadFile(fs, CacheFile(p, ext)).value, fs, false))
  {
  }

  /** After a miss that stores a truthy result, the next call for the same
      path and stage returns that result without running the stage,
      whatever the stage would now return. */
  lemma CachedFileMissThenHit(name: string, ext: string, p: string, fs: Fs,
                              result: Option<string>, later: Option<string>)
    requires p != [] && Truthy(result)
    requires CachedFile(name, ext, Some(p), fs, result).Ok?
    requires CachedFile(name, ext, Some(p), fs, result).value.computed
    ensures var first := CachedFile(name, ext, Some(p), fs, result).value;
            && first.value == result.value
            && CachedFile(name, ext, Some(p), first.fs, later)
               == Ok(Run(result.value, first.fs, false))
  {
    var d := CacheDir(p);
    var file := CacheFile(p, ext);
    var fs1 := MakeDirs(fs, d).value;
    assert !Exists(fs1, file);
    var fs2 := WriteFile(fs1, file, result.value).value;
    WriteThenRead(fs1, file, result.value, file);
    WriteKeepsDir(fs1, file, result.value, d);
    assert MakeDirs(fs2, d) == Ok(fs2);
  }

  /** A falsy result is reported as `<name> failed` and nothing is stored,
      so the next call runs the stage again. */
  lemma CachedFileFailureNotStored(name: string, ext: string, p: string, fs: Fs,
                                   result: Option<string>, later: Option<string>)
    requires p != [] && !Truthy(result)
    requires CachedFile(name, ext, Some(p), fs, result).Ok?
    requires CachedFile(name, ext, Some(p), fs, result).value.computed
    ensures var first := CachedFile(name, ext, Some(p), fs, result).value;
            && first.value == Failed(name)
            && first.fs == MakeDirs(fs, CacheDir(p)).value
            && CachedFile(name, ext, Some(p), first.fs, later)
               == StoreText(first.fs, name, Some(CacheFile(p, ext)), later)
  {
    var d := CacheDir(p);
    var fs1 := MakeDirs(fs, d).value;
    assert MakeDirs(fs1, d) == Ok(fs1);
  }

  /** `cached_file_object` stores every result, falsy or not, and reads it
      back on the next call, provided `load` inverts `dump` on it. */
  lemma CachedObjectMissThenHit<V>(ext: string, p: string, fs: Fs, result: V, later: V,
                                   dump: V -> string, load: string -> Option<V>)
    requires p != [] && load(dump(result)) == Some(result)
    requires CachedFileObject(ext, Some(p), fs, result, dump, load).Ok?
    requires CachedFileObject(ext, Some(p), fs, result, dump, load).value.computed
    ensures var first := CachedFileObject(ext, Some(p), fs, result, dump, load).value;
            && first.value == result
            && CachedFileObject(ext, Some(p), first.fs, later, dump, load)
               == Ok(Run(result, first.fs, false))
  {
    var d := CacheDir(p);
    var file := CacheFile(p, ext);
    var fs1 := MakeDirs(fs, d).value;
    assert !Exists(fs1, file);
    var fs2 := WriteFile(fs1, file, dump(result)).value;
    WriteThenRead(fs1, file, dump(result), file);
    WriteKeepsDir(fs1, file, dump(result), d);
    assert MakeDirs(fs2, d) == Ok(fs2);
  }

  /** With a non-empty path the two copies of each decorator agree; they
      differ only on `None` and `""`. */
  lemma UnguardedAgrees<V>(name: string, ext: string, p: string, fs: Fs,
                           text: Option<string>, obj: V,
                           dump: V -> string, load: string -> Option<V>)
    requires p != []
    ensures CachedFileUnguarded(name, ext, Some(p), fs, text) == CachedFile(name, ext, Some(p), fs, text)
    ensures CachedFileObjectUnguarded(ext, Some(p), fs, obj, dump, load)
         == CachedFileObject(ext, Some(p), fs, obj, dump, load)
  {
  }

  /** With an empty path the unguarded copy still consults `.d/cache<ext>`:
      a stored result there is returned without running the stage. */
  lemma UnguardedEmptyPathHits(name: string, ext: string, fs: Fs, result: Option<string>)
    requires IsDir(fs, ".d")
    requires Exists(fs, ".d/cache" + ext) && ReadFile(fs, ".d/cache" + ext).Ok?
    ensures CachedFile(name, ext, Some(""), fs, result).value.computed
    ensures CachedFileUnguarded(name, ext, Some(""), fs, result)
         == Ok(Run(ReadFile(fs, ".d/cache" + ext).value, fs, false))
  {
    assert SplitExt("") == ("", "");
    assert CacheDir("") == ".d";
    assert CacheFile("", ext) == ".d/cache" + ext;
    assert MakeDirs(fs, ".d") == Ok(fs);
  }

  /** Clearing removes exactly the regular files and links directly inside
      the cache directory; the directory, its sub-directories and
      everything elsewhere keep their contents. */
  lemma ClearSpec(videoPath: string, fs: Fs)
    requires CacheDir(videoPath) !in fs || !fs[CacheDir(videoPath)].Link?
    requires ClearCacheDirectory(videoPath, fs).Ok?
    ensures var d := CacheDir(videoPath);
            var fs1 := MakeDirs(fs, d).value;
            var r := ClearCacheDirectory(videoPath, fs).value;
            && (forall k :: k in r <==> k in fs1 && !Removable(fs1, d, k))
            && (forall k :: k in r ==> r[k] == fs1[k])
            && d in r && r[d].Dir?
  {
    var d := CacheDir(videoPath);
    var fs1 := MakeDirs(fs, d).value;
    assert Resolve(fs1, d, MaxSymlinkHops) == Some(d);
    assert !Child(d, d);
  }
}
