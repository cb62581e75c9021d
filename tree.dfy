/**
 * The tree as the Go code changes it: in place, one file-system call at a time.
 * Each method is proved to leave the tree as the corresponding function of Passes says.
 */
module FileTree {
  import opened Naming
  import opened Passes

  class Tree {
    /** Regular files under the base path, with their contents. */
    var files: map<Path, Bytes>
    /** Every other entry: directories, symbolic links, devices, ... */
    var others: set<Path>

    constructor (files: map<Path, Bytes>, others: set<Path>)
      requires files.Keys !! others
      ensures Valid() && Snapshot() == Fs(files, others)
    {
      this.files := files;
      this.others := others;
    }

    /** The tree as a value. */
    function Snapshot(): Fs
      reads this
    {
      Fs(files, others)
    }

    /** A path is a regular file or another kind of entry, never both. */
    predicate Valid()
      reads this
    {
      Snapshot().WellFormed()
    }

    /** decompress: writes the shadow `dst` of `src`, and removes it again if the verdict is false. */
    method Decompress(src: Path, dst: Path, env: Env) returns (err: Outcome)
      requires src in files && dst !in files && dst !in others
      requires Valid()
      modifies this
      ensures Run(Snapshot(), err) == DecompressFile(old(Snapshot()), src, dst, env)
      ensures Valid()
    {
      if env.fails(Open, src) {
        return Failed(src);
      }
      var decoded := env.decode(files[src]);
      if decoded.NotGzip? {
        // not a gzip, or empty: nothing to do
        return Done;
      }
      if decoded.InitFailed? {
        return Failed(src);
      }
      if env.fails(Create, dst) {
        return Failed(src);
      }
      files := files[dst := []];
      if decoded.Corrupt? {
        // the partial shadow stays on disk
        files := files[dst := decoded.written];
        return Failed(src);
      }
      if env.fails(Copy, dst) {
        files := files[dst := env.torn(dst)];
        return Failed(src);
      }
      files := files[dst := decoded.plain];
      if env.fails(CloseCodec, src) || env.fails(Close, dst) || env.fails(Close, src) {
        return Failed(src);
      }
      if !decoded.transparent {
        // cannot be compressed back to the same bytes: roll back
        files := files - {dst};
      }
      return Done;
    }

    /** DecompressAllIn: the decompress callback on every walked entry, up to the first error. */
    method DecompressAllIn(walk: seq<Path>, env: Env) returns (err: Outcome)
      requires Valid()
      modifies this
      ensures Run(Snapshot(), err) == Walk(DecompressPass, old(Snapshot()), walk, env)
      ensures Valid()
    {
      var i := 0;
      while i < |walk|
        invariant i <= |walk|
        invariant Walk(DecompressPass, Snapshot(), walk[i..], env) == Walk(DecompressPass, old(Snapshot()), walk, env)
      {
        var p := walk[i];
        assert walk[i..][0] == p && walk[i..][1..] == walk[i + 1..];
        if p in files && !HasSuffix(p, Suffix) && p + Suffix !in files && p + Suffix !in others {
          err := Decompress(p, p + Suffix, env);
          if err.Failed? {
            return;
          }
        }
        i := i + 1;
      }
      return Done;
    }

    /** compress: writes `dst` as the gzip compression of `src`. */
    method Compress(src: Path, dst: Path, env: Env) returns (err: Outcome)
      requires dst !in files && dst !in others
      requires Valid()
      modifies this
      ensures Run(Snapshot(), err) == CompressFile(old(Snapshot()), src, dst, env)
      ensures Valid()
    {
      if (src !in files && src !in others) || env.fails(Open, src) {
        return Failed(src);
      }
      if env.fails(Create, dst) {
        return Failed(src);
      }
      var regular := src in files;
      files := files[dst := []];
      if !regular {
        // reading a directory or other non-regular entry fails
        return Failed(src);
      }
      if env.fails(Copy, dst) {
        files := files[dst := env.torn(dst)];
        return Failed(src);
      }
      files := files[dst := env.compress(files[src])];
      if env.fails(CloseCodec, dst) || env.fails(Close, dst) || env.fails(Close, src) {
        return Failed(src);
      }
      return Done;
    }

    /** RecompressAllIn: the recompress callback on every walked entry, up to the first error. */
    method RecompressAllIn(walk: seq<Path>, env: Env) returns (err: Outcome)
      requires Valid()
      modifies this
      ensures Run(Snapshot(), err) == Walk(RecompressPass, old(Snapshot()), walk, env)
      ensures Valid()
    {
      var i := 0;
      while i < |walk|
        invariant i <= |walk|
        invariant Walk(RecompressPass, Snapshot(), walk[i..], env) == Walk(RecompressPass, old(Snapshot()), walk, env)
      {
        var p := walk[i];
        assert walk[i..][0] == p && walk[i..][1..] == walk[i + 1..];
        if HasSuffix(p, Suffix) {
          var original := TrimSuffix(p, Suffix);
          if original !in files && original !in others {
            err := Compress(p, original, env);
            if err.Failed? {
              return;
            }
          }
        }
        i := i + 1;
      }
      return Done;
    }
  }
}
