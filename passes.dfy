/**
 * The tree under the base path, the collaborators the two passes call
 * (the round-trip decoder, the gzip writer, the file system's failures),
 * and one visit of each pass as a function of the tree before the visit.
 */
module Passes {
  import opened Naming

  newtype byte = x: int | 0 <= x < 256

  type Bytes = seq<byte>

  /** The tree: regular files with their contents, and every other entry (directories, links, ...). */
  datatype Fs = Fs(files: map<Path, Bytes>, others: set<Path>) {

    /** os.Stat succeeds on `p`. */
    predicate Exists(p: Path) {
      p in files || p in others
    }

    /** No entry is both a regular file and something else. */
    predicate WellFormed() {
      files.Keys !! others
    }
  }

  /**
   * What the round-trip decoder makes of the contents of a file:
   * NotGzip       the header could not be read, or the file is empty (gzip.ErrHeader, io.EOF);
   * InitFailed    any other error while opening the stream;
   * Corrupt       the stream broke while it was copied out, after `written` reached the shadow;
   * Plain         the whole stream decoded to `plain`; `transparent` is the verdict.
   */
  datatype Decoded =
    | NotGzip
    | InitFailed
    | Corrupt(written: Bytes)
    | Plain(plain: Bytes, transparent: bool)

  /** File-system calls the passes make; each may fail on a given path. */
  datatype Call =
    | Open        // os.Open
    | Create      // os.Create
    | Copy        // io.Copy into the given destination
    | CloseCodec  // Close of the decoding reader (keyed by source) or the gzip writer (keyed by destination)
    | Close       // Close of a file handle

  /** Everything outside the tree that the passes depend on. */
  datatype Env = Env(
    decode: Bytes -> Decoded,
    compress: Bytes -> Bytes,
    fails: (Call, Path) -> bool,
    torn: Path -> Bytes)
  {
    /** A true verdict means that compressing the plaintext gives back the compressed bytes. */
    ghost predicate VerdictSound() {
      forall b :: decode(b).Plain? && decode(b).transparent ==> compress(decode(b).plain) == b
    }
  }

  /** The error a pass returns: Failed names the walked entry whose processing failed. */
  datatype Outcome = Done | Failed(at: Path)

  /** The tree after a step, and what the step returned. */
  datatype Run = Run(after: Fs, result: Outcome)

  datatype Pass = DecompressPass | RecompressPass

  /** Adds or replaces one regular file. */
  function Write(fs: Fs, p: Path, content: Bytes): (r: Fs)
    ensures r.others == fs.others
    ensures p in r.files && r.files[p] == content
    ensures forall x :: x != p ==> (x in r.files <==> x in fs.files)
    ensures forall x :: x != p && x in fs.files ==> r.files[x] == fs.files[x]
  {
    fs.(files := fs.files[p := content])
  }

  /** decompress(sourcePath, destinationPath): the shadow `dst` of the regular file `src`. */
  function DecompressFile(fs: Fs, src: Path, dst: Path, env: Env): (r: Run)
    requires src in fs.files && !fs.Exists(dst)
    ensures r.after.others == fs.others
    ensures forall x :: x in fs.files ==> x in r.after.files && r.after.files[x] == fs.files[x]
    ensures forall x :: x in r.after.files && x !in fs.files ==> x == dst
    ensures r.result.Failed? ==> r.result.at == src
  {
    if env.fails(Open, src) then Run(fs, Failed(src))
    else
      var decoded := env.decode(fs.files[src]);
      if decoded.NotGzip? then Run(fs, Done)
      else if decoded.InitFailed? then Run(fs, Failed(src))
      else if env.fails(Create, dst) then Run(fs, Failed(src))
      else if decoded.Corrupt? then Run(Write(fs, dst, decoded.written), Failed(src))
      else if env.fails(Copy, dst) then Run(Write(fs, dst, env.torn(dst)), Failed(src))
      else
        var full := Write(fs, dst, decoded.plain);
        if env.fails(CloseCodec, src) || env.fails(Close, dst) || env.fails(Close, src) then
          Run(full, Failed(src))
        else if decoded.transparent then Run(full, Done)
        else Run(full.(files := full.files - {dst}), Done)
  }

  /** compress(sourcePath, destinationPath): `dst` regenerated by gzip-compressing `src`. */
  function CompressFile(fs: Fs, src: Path, dst: Path, env: Env): (r: Run)
    requires !fs.Exists(dst)
    ensures r.after.others == fs.others
    ensures forall x :: x in fs.files ==> x in r.after.files && r.after.files[x] == fs.files[x]
    ensures forall x :: x in r.after.files && x !in fs.files ==> x == dst
    ensures r.result.Failed? ==> r.result.at == src
  {
    if !fs.Exists(src) || env.fails(Open, src) then Run(fs, Failed(src))
    else if env.fails(Create, dst) then Run(fs, Failed(src))
    // reading a directory or other non-regular entry fails inside io.Copy, before any output
    else if src !in fs.files then Run(Write(fs, dst, []), Failed(src))
    else if env.fails(Copy, dst) then Run(Write(fs, dst, env.torn(dst)), Failed(src))
    else
      var written := Write(fs, dst, env.compress(fs.files[src]));
      if env.fails(CloseCodec, dst) || env.fails(Close, dst) || env.fails(Close, src) then
        Run(written, Failed(src))
      else Run(written, Done)
  }

  /** The path a visit of `p` may create: the shadow, or the original. */
  function Target(pass: Pass, p: Path): Path {
    match pass
    case DecompressPass => p + Suffix
    case RecompressPass => TrimSuffix(p, Suffix)
  }

  /** The walk callback of DecompressAllIn or RecompressAllIn, applied to the entry `p`. */
  function Visit(pass: Pass, fs: Fs, p: Path, env: Env): (r: Run)
    ensures r.after.others == fs.others
    ensures forall x :: x in fs.files ==> x in r.after.files && r.after.files[x] == fs.files[x]
    ensures forall x :: x in r.after.files && x !in fs.files ==> !fs.Exists(x) && x == Target(pass, p)
    ensures r.result.Failed? ==> r.result.at == p
  {
    match pass
    case DecompressPass =>
      if p !in fs.files then Run(fs, Done)                 // not a regular file
      else if HasSuffix(p, Suffix) then Run(fs, Done)      // a shadow itself
      else if fs.Exists(p + Suffix) then Run(fs, Done)     // its shadow is already there
      else DecompressFile(fs, p, p + Suffix, env)
    case RecompressPass =>
      if !HasSuffix(p, Suffix) then Run(fs, Done)                      // not a shadow
      else if fs.Exists(TrimSuffix(p, Suffix)) then Run(fs, Done)      // its original is there
      else CompressFile(fs, p, TrimSuffix(p, Suffix), env)
  }

  /**
   * filepath.WalkDir over the entries `walk` listed when the pass starts:
   * the first visit that fails ends the pass and its error is returned.
   */
  function Walk(pass: Pass, fs: Fs, walk: seq<Path>, env: Env): (r: Run)
    ensures r.after.others == fs.others
    ensures forall x :: x in fs.files ==> x in r.after.files && r.after.files[x] == fs.files[x]
    ensures forall x :: x in r.after.files && x !in fs.files ==> x !in fs.others
    ensures r.result.Failed? ==> r.result.at in walk
    decreases |walk|
  {
    if walk == [] then Run(fs, Done)
    else
      var step := Visit(pass, fs, walk[0], env);
      if step.result.Failed? then step
      else Walk(pass, step.after, walk[1..], env)
  }

  // ---------------------------------------------------------------------
  // One visit of the decompress pass

  /** No failure on the way from opening `src` to closing everything. */
  predicate CleanDecompress(env: Env, src: Path, dst: Path) {
    !env.fails(Open, src) && !env.fails(Create, dst) && !env.fails(Copy, dst) &&
    !env.fails(CloseCodec, src) && !env.fails(Close, dst) && !env.fails(Close, src)
  }

  /** Non-regular entries, shadows and files whose shadow exists are left alone. */
  lemma DecompressSkips(fs: Fs, p: Path, env: Env)
    requires p !in fs.files || HasSuffix(p, Suffix) || fs.Exists(p + Suffix)
    ensures Visit(DecompressPass, fs, p, env) == Run(fs, Done)
  {
  }

  /** A plain (or empty) file is not an error and gets no shadow. */
  lemma DecompressNotGzip(fs: Fs, src: Path, dst: Path, env: Env)
    requires src in fs.files && !fs.Exists(dst)
    requires !env.fails(Open, src) && env.decode(fs.files[src]).NotGzip?
    ensures DecompressFile(fs, src, dst, env) == Run(fs, Done)
    ensures dst !in DecompressFile(fs, src, dst, env).after.files
  {
  }

  /** A transparently recompressible stream leaves its plaintext as the shadow. */
  lemma DecompressKeepsTransparentShadow(fs: Fs, src: Path, dst: Path, env: Env, plain: Bytes)
    requires src in fs.files && !fs.Exists(dst)
    requires env.decode(fs.files[src]) == Plain(plain, true) && CleanDecompress(env, src, dst)
    ensures var r := DecompressFile(fs, src, dst, env);
      r.result == Done && dst in r.after.files && r.after.files[dst] == plain &&
      r.after.files.Keys == fs.files.Keys + {dst} && r.after.others == fs.others
  {
  }

  /** A stream that would not recompress to the same bytes leaves the tree as it was. */
  lemma DecompressDropsUntrustedShadow(fs: Fs, src: Path, dst: Path, env: Env, plain: Bytes)
    requires src in fs.files && !fs.Exists(dst)
    requires env.decode(fs.files[src]) == Plain(plain, false) && CleanDecompress(env, src, dst)
    ensures DecompressFile(fs, src, dst, env) == Run(fs, Done)
  {
    var full := Write(fs, dst, plain);
    assert full.files - {dst} == fs.files;
  }

  /** A stream that breaks mid-copy fails the file and leaves the partial shadow behind. */
  lemma DecompressLeavesPartialShadow(fs: Fs, src: Path, dst: Path, env: Env, written: Bytes)
    requires src in fs.files && !fs.Exists(dst)
    requires !env.fails(Open, src) && !env.fails(Create, dst)
    requires env.decode(fs.files[src]) == Corrupt(written)
    ensures var r := DecompressFile(fs, src, dst, env);
      r.result == Failed(src) && dst in r.after.files && r.after.files[dst] == written
  {
  }

  /**
   * Once the shadow has been created, a failure leaves it on disk whatever the verdict,
   * and success keeps it exactly when the verdict is true.
   */
  lemma DecompressFailureKeepsShadow(fs: Fs, src: Path, dst: Path, env: Env)
    requires src in fs.files && !fs.Exists(dst)
    requires !env.fails(Open, src) && !env.fails(Create, dst)
    requires !env.decode(fs.files[src]).NotGzip? && !env.decode(fs.files[src]).InitFailed?
    ensures var r := DecompressFile(fs, src, dst, env);
      (r.result.Failed? ==> dst in r.after.files) &&
      (r.result == Done ==> (dst in r.after.files <==> env.decode(fs.files[src]).Plain? && env.decode(fs.files[src]).transparent))
  {
  }

  /** A visit of the decompress pass creates at most the shadow of the regular, unsuffixed `p`. */
  lemma DecompressVisitNewFile(fs: Fs, p: Path, env: Env)
    ensures var r := Visit(DecompressPass, fs, p, env);
      forall x :: x in r.after.files && x !in fs.files ==>
        x == p + Suffix && TrimSuffix(x, Suffix) == p && HasSuffix(x, Suffix) &&
        p in fs.files && !HasSuffix(p, Suffix) &&
        (r.result == Done ==> env.decode(fs.files[p]) == Plain(r.after.files[x], true))
  {
    ShadowNameRoundTrip(p, Suffix);
  }

  // ---------------------------------------------------------------------
  // One visit of the recompress pass

  /** Names without the suffix, and shadows whose original exists, are left alone. */
  lemma RecompressSkips(fs: Fs, s: Path, env: Env)
    requires !HasSuffix(s, Suffix) || fs.Exists(TrimSuffix(s, Suffix))
    ensures Visit(RecompressPass, fs, s, env) == Run(fs, Done)
  {
  }

  /** A shadow whose original is missing gets the original back, compressed from the shadow. */
  lemma RecompressRegeneratesOriginal(fs: Fs, s: Path, env: Env)
    requires HasSuffix(s, Suffix) && s in fs.files && !fs.Exists(TrimSuffix(s, Suffix))
    requires var o := TrimSuffix(s, Suffix);
      !env.fails(Open, s) && !env.fails(Create, o) && !env.fails(Copy, o) &&
      !env.fails(CloseCodec, o) && !env.fails(Close, o) && !env.fails(Close, s)
    ensures var r := Visit(RecompressPass, fs, s, env);
      r.result == Done &&
      r.after == fs.(files := fs.files[TrimSuffix(s, Suffix) := env.compress(fs.files[s])])
  {
  }

  /**
   * The recompress pass does not check the entry type: a directory (or other non-regular
   * entry) named like a shadow, with no original, yields an empty original and an error.
   */
  lemma RecompressNonRegularShadow(fs: Fs, s: Path, env: Env)
    requires HasSuffix(s, Suffix) && s in fs.others && s !in fs.files && !fs.Exists(TrimSuffix(s, Suffix))
    requires !env.fails(Open, s) && !env.fails(Create, TrimSuffix(s, Suffix))
    ensures var r := Visit(RecompressPass, fs, s, env);
      r.result == Failed(s) && r.after == fs.(files := fs.files[TrimSuffix(s, Suffix) := []])
  {
  }

  /** A visit of the recompress pass creates at most the original of the shadow `s`. */
  lemma RecompressVisitNewFile(fs: Fs, s: Path, env: Env)
    ensures var r := Visit(RecompressPass, fs, s, env);
      forall x :: x in r.after.files && x !in fs.files ==>
        x + Suffix == s && fs.Exists(s) &&
        (r.result == Done ==> s in fs.files && r.after.files[x] == env.compress(fs.files[s]))
  {
    if HasSuffix(s, Suffix) {
      OriginalNameRoundTrip(s, Suffix);
    }
  }
}
