/** What whole passes over the tree guarantee, for any walk order. */
module PassProperties {
  import opened Naming
  import opened Passes

  // ---------------------------------------------------------------------
  // The walk

  /** Walking `a` then `b` is walking `a + b`, unless `a` already failed. */
  lemma {:induction false} WalkAppend(pass: Pass, fs: Fs, a: seq<Path>, b: seq<Path>, env: Env)
    ensures Walk(pass, fs, a + b, env) ==
      var first := Walk(pass, fs, a, env);
      if first.result.Failed? then first else Walk(pass, first.after, b, env)
    decreases |a|
  {
    if a != [] {
      assert (a + b)[0] == a[0];
      assert (a + b)[1..] == a[1..] + b;
      var step := Visit(pass, fs, a[0], env);
      if step.result.Done? {
        WalkAppend(pass, step.after, a[1..], b, env);
      }
    } else {
      assert a + b == b;
    }
  }

  /**
   * A failing pass stopped at the first entry whose visit failed: every earlier entry was
   * visited successfully (and keeps its new state), the failing visit's state is the final
   * state, and no later entry was visited.
   */
  lemma {:induction false} WalkStopsAtFirstFailure(pass: Pass, fs: Fs, walk: seq<Path>, env: Env) returns (k: nat)
    requires Walk(pass, fs, walk, env).result.Failed?
    ensures k < |walk| && walk[k] == Walk(pass, fs, walk, env).result.at
    ensures Walk(pass, fs, walk[..k], env).result == Done
    ensures Walk(pass, fs, walk, env) == Visit(pass, Walk(pass, fs, walk[..k], env).after, walk[k], env)
    decreases |walk|
  {
    var step := Visit(pass, fs, walk[0], env);
    if step.result.Failed? {
      k := 0;
    } else {
      var k' := WalkStopsAtFirstFailure(pass, step.after, walk[1..], env);
      k := k' + 1;
      assert walk[..k][0] == walk[0] && walk[..k][1..] == walk[1..][..k'];
    }
  }

  /** A walk whose every visit changes nothing and succeeds changes nothing and succeeds. */
  lemma {:induction false} WalkOfNoOps(pass: Pass, fs: Fs, walk: seq<Path>, env: Env)
    requires forall p :: p in walk ==> Visit(pass, fs, p, env) == Run(fs, Done)
    ensures Walk(pass, fs, walk, env) == Run(fs, Done)
    decreases |walk|
  {
    if walk != [] {
      assert walk[0] in walk;
      WalkOfNoOps(pass, fs, walk[1..], env);
    }
  }

  /** Neither pass puts a regular file where a directory or other entry was. */
  lemma WalkKeepsWellFormed(pass: Pass, fs: Fs, walk: seq<Path>, env: Env)
    requires fs.WellFormed()
    ensures Walk(pass, fs, walk, env).after.WellFormed()
  {
  }

  // ---------------------------------------------------------------------
  // The decompress pass

  /**
   * Every file the decompress pass adds is the shadow of an unsuffixed regular file it
   * walked; after a successful pass each holds the plaintext of a stream whose verdict was true.
   */
  lemma {:induction false} DecompressWalkNewFiles(fs: Fs, walk: seq<Path>, env: Env)
    ensures var r := Walk(DecompressPass, fs, walk, env);
      forall x :: x in r.after.files && x !in fs.files ==>
        HasSuffix(x, Suffix) && TrimSuffix(x, Suffix) in walk &&
        TrimSuffix(x, Suffix) in fs.files && !HasSuffix(TrimSuffix(x, Suffix), Suffix) &&
        (r.result == Done ==> env.decode(fs.files[TrimSuffix(x, Suffix)]) == Plain(r.after.files[x], true))
    decreases |walk|
  {
    if walk != [] {
      var p := walk[0];
      var step := Visit(DecompressPass, fs, p, env);
      DecompressVisitNewFile(fs, p, env);
      if step.result.Done? {
        DecompressWalkNewFiles(step.after, walk[1..], env);
        var r := Walk(DecompressPass, fs, walk, env);
        forall x | x in r.after.files && x !in fs.files
          ensures HasSuffix(x, Suffix) && TrimSuffix(x, Suffix) in walk
          ensures TrimSuffix(x, Suffix) in fs.files && !HasSuffix(TrimSuffix(x, Suffix), Suffix)
          ensures r.result == Done ==> env.decode(fs.files[TrimSuffix(x, Suffix)]) == Plain(r.after.files[x], true)
        {
          if x !in step.after.files {
            var t := TrimSuffix(x, Suffix);
            if t !in fs.files {
              ShadowNameRoundTrip(p, Suffix);
            }
          }
        }
      }
    }
  }

  /** After a successful decompress pass, every new shadow recompresses to its original's bytes. */
  lemma ShadowsAreFaithful(fs: Fs, walk: seq<Path>, env: Env)
    requires env.VerdictSound()
    requires Walk(DecompressPass, fs, walk, env).result == Done
    ensures var after := Walk(DecompressPass, fs, walk, env).after;
      forall x :: x in after.files && x !in fs.files ==>
        TrimSuffix(x, Suffix) in fs.files && env.compress(after.files[x]) == fs.files[TrimSuffix(x, Suffix)]
  {
    DecompressWalkNewFiles(fs, walk, env);
    var after := Walk(DecompressPass, fs, walk, env).after;
    forall x | x in after.files && x !in fs.files
      ensures env.compress(after.files[x]) == fs.files[TrimSuffix(x, Suffix)]
    {
      var b := fs.files[TrimSuffix(x, Suffix)];
      assert env.decode(b) == Plain(after.files[x], true);
    }
  }

  /** A tree of plain files: the decompress pass creates nothing and reports nothing. */
  lemma NonGzipPassthrough(fs: Fs, walk: seq<Path>, env: Env)
    requires forall p :: p in fs.files ==> !env.fails(Open, p) && env.decode(fs.files[p]).NotGzip?
    ensures Walk(DecompressPass, fs, walk, env) == Run(fs, Done)
  {
    WalkOfNoOps(DecompressPass, fs, walk, env);
  }

  /** `fs`'s contents for `src` make decompress succeed without leaving anything. */
  predicate Declines(env: Env, content: Bytes, src: Path, dst: Path) {
    !env.fails(Open, src) &&
    (env.decode(content).NotGzip? ||
     (env.decode(content).Plain? && !env.decode(content).transparent && CleanDecompress(env, src, dst)))
  }

  /** A later decompress visit of `p` would change nothing and succeed. */
  predicate SettledForDecompress(fs: Fs, p: Path, env: Env) {
    p !in fs.files || HasSuffix(p, Suffix) || fs.Exists(p + Suffix) ||
    Declines(env, fs.files[p], p, p + Suffix)
  }

  lemma SettledDecompressIsNoOp(fs: Fs, p: Path, env: Env)
    requires SettledForDecompress(fs, p, env)
    ensures Visit(DecompressPass, fs, p, env) == Run(fs, Done)
  {
    if p in fs.files && !HasSuffix(p, Suffix) && !fs.Exists(p + Suffix) {
      var decoded := env.decode(fs.files[p]);
      if decoded.Plain? {
        DecompressDropsUntrustedShadow(fs, p, p + Suffix, env, decoded.plain);
      }
    }
  }

  /** A successful decompress visit of `p` settles `p`. */
  lemma VisitSettlesDecompress(fs: Fs, p: Path, env: Env)
    requires Visit(DecompressPass, fs, p, env).result == Done
    ensures SettledForDecompress(Visit(DecompressPass, fs, p, env).after, p, env)
  {
  }

  /** Once settled, `p` stays settled whatever the decompress pass visits. */
  lemma {:induction false} SettledDecompressStable(fs: Fs, p: Path, walk: seq<Path>, env: Env)
    requires SettledForDecompress(fs, p, env)
    ensures SettledForDecompress(Walk(DecompressPass, fs, walk, env).after, p, env)
    decreases |walk|
  {
    if walk != [] {
      var step := Visit(DecompressPass, fs, walk[0], env);
      DecompressVisitNewFile(fs, walk[0], env);
      ShadowNameRoundTrip(walk[0], Suffix);
      assert SettledForDecompress(step.after, p, env);
      if step.result.Done? {
        SettledDecompressStable(step.after, p, walk[1..], env);
      }
    }
  }

  /** A successful decompress pass settles every entry it walked. */
  lemma {:induction false} DecompressWalkSettles(fs: Fs, walk: seq<Path>, env: Env)
    requires Walk(DecompressPass, fs, walk, env).result == Done
    ensures forall p :: p in walk ==> SettledForDecompress(Walk(DecompressPass, fs, walk, env).after, p, env)
    decreases |walk|
  {
    if walk != [] {
      var step := Visit(DecompressPass, fs, walk[0], env);
      VisitSettlesDecompress(fs, walk[0], env);
      SettledDecompressStable(step.after, walk[0], walk[1..], env);
      DecompressWalkSettles(step.after, walk[1..], env);
    }
  }

  /**
   * A second decompress pass after a successful one that walked every regular file
   * changes nothing and succeeds, whatever it walks, provided the decoder gives the same
   * answers and no file-system call of the second pass fails.
   */
  lemma DecompressIdempotent(fs: Fs, first: seq<Path>, second: seq<Path>, env: Env, later: Env)
    requires forall p :: p in fs.files ==> p in first
    requires Walk(DecompressPass, fs, first, env).result == Done
    requires later.decode == env.decode
    requires forall c, q :: !later.fails(c, q)
    ensures var once := Walk(DecompressPass, fs, first, env).after;
      Walk(DecompressPass, once, second, later) == Run(once, Done)
  {
    var once := Walk(DecompressPass, fs, first, env).after;
    DecompressWalkNewFiles(fs, first, env);
    DecompressWalkSettles(fs, first, env);
    forall p | p in second
      ensures Visit(DecompressPass, once, p, later) == Run(once, Done)
    {
      if p in once.files && !HasSuffix(p, Suffix) {
        assert p in fs.files;
        assert SettledForDecompress(once, p, env);
        assert CleanDecompress(later, p, p + Suffix);
      }
      SettledDecompressIsNoOp(once, p, later);
    }
    WalkOfNoOps(DecompressPass, once, second, later);
  }

  // ---------------------------------------------------------------------
  // The recompress pass

  /**
   * Every file the recompress pass adds is the original of a shadow it walked; after a
   * successful pass each holds the compression of that shadow's contents.
   */
  lemma {:induction false} RecompressWalkNewFiles(fs: Fs, walk: seq<Path>, env: Env)
    ensures var r := Walk(RecompressPass, fs, walk, env);
      forall x :: x in r.after.files && x !in fs.files ==>
        x + Suffix in walk &&
        (r.result == Done ==> x + Suffix in r.after.files && r.after.files[x] == env.compress(r.after.files[x + Suffix]))
    decreases |walk|
  {
    if walk != [] {
      var s := walk[0];
      var step := Visit(RecompressPass, fs, s, env);
      RecompressVisitNewFile(fs, s, env);
      if step.result.Done? {
        RecompressWalkNewFiles(step.after, walk[1..], env);
      }
    }
  }

  /** The shadow `s` has its original, so a recompress visit of `s` changes nothing. */
  predicate SettledForRecompress(fs: Fs, s: Path) {
    !HasSuffix(s, Suffix) || fs.Exists(TrimSuffix(s, Suffix))
  }

  /** A successful recompress pass leaves every shadow it walked with its original. */
  lemma {:induction false} RecompressWalkSettles(fs: Fs, walk: seq<Path>, env: Env)
    requires Walk(RecompressPass, fs, walk, env).result == Done
    ensures forall s :: s in walk ==> SettledForRecompress(Walk(RecompressPass, fs, walk, env).after, s)
    decreases |walk|
  {
    if walk != [] {
      var step := Visit(RecompressPass, fs, walk[0], env);
      assert SettledForRecompress(step.after, walk[0]);
      RecompressWalkSettles(step.after, walk[1..], env);
    }
  }

  /**
   * A second recompress pass over the entries present after a successful first pass, which
   * walked every entry and met no name ending in the suffix twice, changes nothing.
   */
  lemma RecompressIdempotent(fs: Fs, first: seq<Path>, second: seq<Path>, env: Env)
    requires forall p :: fs.Exists(p) ==> p in first
    requires forall p :: p in first ==> !HasSuffix(p, Suffix + Suffix)
    requires Walk(RecompressPass, fs, first, env).result == Done
    requires forall p :: p in second ==> Walk(RecompressPass, fs, first, env).after.Exists(p)
    ensures var once := Walk(RecompressPass, fs, first, env).after;
      Walk(RecompressPass, once, second, env) == Run(once, Done)
  {
    var once := Walk(RecompressPass, fs, first, env).after;
    RecompressWalkNewFiles(fs, first, env);
    RecompressWalkSettles(fs, first, env);
    forall s | s in second
      ensures Visit(RecompressPass, once, s, env) == Run(once, Done)
    {
      if HasSuffix(s, Suffix) {
        // a shadow the first pass created would be walked as `s + Suffix`, a double suffix
        ShadowOfShadow(s, Suffix);
        assert fs.Exists(s) && s in first;
      }
    }
    WalkOfNoOps(RecompressPass, once, second, env);
  }

  // ---------------------------------------------------------------------
  // Decompress, let the consumer delete originals, recompress

  /**
   * The purpose of the two passes: decompress, let the consumer delete some originals,
   * recompress over what is left; every deleted original whose shadow this decompress pass
   * made comes back byte for byte.
   */
  lemma RecompressRestoresOriginals(fs: Fs, first: seq<Path>, deleted: set<Path>, second: seq<Path>, env: Env)
    requires env.VerdictSound() && fs.WellFormed()
    requires Walk(DecompressPass, fs, first, env).result == Done
    requires forall p :: p in deleted ==> p + Suffix !in deleted
    requires var shadowed := Walk(DecompressPass, fs, first, env).after;
      var consumed := shadowed.(files := shadowed.files - deleted);
      (forall p :: consumed.Exists(p) ==> p in second) &&
      Walk(RecompressPass, consumed, second, env).result == Done
    ensures var shadowed := Walk(DecompressPass, fs, first, env).after;
      var consumed := shadowed.(files := shadowed.files - deleted);
      var restored := Walk(RecompressPass, consumed, second, env).after;
      forall p :: p in deleted && p + Suffix in shadowed.files && p + Suffix !in fs.files ==>
        p in fs.files && p in restored.files && restored.files[p] == fs.files[p]
  {
    var shadowed := Walk(DecompressPass, fs, first, env).after;
    var consumed := shadowed.(files := shadowed.files - deleted);
    var restored := Walk(RecompressPass, consumed, second, env).after;
    ShadowsAreFaithful(fs, first, env);
    RecompressWalkSettles(consumed, second, env);
    RecompressWalkNewFiles(consumed, second, env);
    forall p | p in deleted && p + Suffix in shadowed.files && p + Suffix !in fs.files
      ensures p in fs.files && p in restored.files && restored.files[p] == fs.files[p]
    {
      var x := p + Suffix;
      ShadowNameRoundTrip(p, Suffix);
      assert x !in deleted;
      assert x in consumed.files && consumed.files[x] == shadowed.files[x];
      assert SettledForRecompress(restored, x);
      assert p !in consumed.others;
    }
  }
}

/** Concrete trees for the passes. */
module PassExamples {
  import opened Naming
  import opened Passes

  /** No failures; nothing is gzip; compression is the identity. */
  function QuietEnv(): Env {
    Env(b => NotGzip, b => b, (c, p) => false, p => [])
  }

  /**
   * Why RecompressIdempotent excludes names ending in the suffix twice: the first pass
   * regenerates `a` + Suffix from `a` + Suffix + Suffix but does not visit it, so a
   * second pass over the new tree regenerates `a` as well.
   */
  lemma DoubleShadowNotIdempotent()
    ensures var env := QuietEnv();
      var fs := Fs(map["a" + Suffix + Suffix := []], {});
      var once := Walk(RecompressPass, fs, ["a" + Suffix + Suffix], env);
      once.result == Done &&
      Walk(RecompressPass, once.after, ["a" + Suffix + Suffix, "a" + Suffix], env).after != once.after
  {
    var env := QuietEnv();
    var shadow := "a" + Suffix;
    var double := shadow + Suffix;
    var fs := Fs(map[double := []], {});
    ShadowNameRoundTrip(shadow, Suffix);
    ShadowNameRoundTrip("a", Suffix);
    assert shadow != double && "a" != shadow && "a" != double;
    assert TrimSuffix(double, Suffix) == shadow && !fs.Exists(shadow);
    var step := Visit(RecompressPass, fs, double, env);
    assert step == CompressFile(fs, double, shadow, env);
    assert !env.fails(Open, double) && !env.fails(Create, shadow) && !env.fails(Copy, shadow);
    assert step.result == Done && shadow in step.after.files;
    var once := Walk(RecompressPass, fs, [double], env);
    assert [double][1..] == [];
    assert once == Walk(RecompressPass, step.after, [], env);
    var twice := Walk(RecompressPass, once.after, [double, shadow], env);
    assert Visit(RecompressPass, once.after, double, env) == Run(once.after, Done);
    assert TrimSuffix(shadow, Suffix) == "a" && !once.after.Exists("a");
    var last := Visit(RecompressPass, once.after, shadow, env);
    assert last == CompressFile(once.after, shadow, "a", env);
    assert !env.fails(Open, shadow) && !env.fails(Create, "a") && !env.fails(Copy, "a");
    assert "a" in last.after.files;
    assert [double, shadow][1..] == [shadow] && [shadow][1..] == [];
    assert twice == Walk(RecompressPass, once.after, [shadow], env);
    assert "a" in twice.after.files;
  }
}
