# Shadow files for gzip blobs (booster, `gzip/util.go`)

booster keeps a decompressed "shadow" next to every gzip blob of a registry
tree whose stream can be compressed back to the very same bytes, so that a
synchronisation tool can diff plaintext instead of compressed bytes. This
project models the bookkeeping in `gzip/util.go`:

- the naming convention: the shadow of `p` is `p + Suffix`, with
  `Suffix = "_UNGZIPPED_BY_BOOSTER"`, and the code moves between the two
  names with `strings.HasSuffix` and `strings.TrimSuffix` (module `Naming`);
- `DecompressAllIn` / `decompress`: create the shadow of every regular,
  unsuffixed file that has none, keep it only when the decoder's verdict
  says the stream is transparently recompressible;
- `RecompressAllIn` / `compress`: regenerate a missing original by
  gzip-compressing its shadow;
- `ListDecompressedOnly`: every walked relative path, minus the bare twin
  of every walked shadow name (module `Listing`).

The tree is a map from path to contents for regular files plus a set of
all other entries (directories, links, ...); `os.Stat` succeeding is
membership in either. Module `Passes` gives one visit of each walk
callback, and `filepath.WalkDir` as a fold that stops at the first error,
as functions of the tree before the step. Module `FileTree` holds the
class `Tree` whose methods change the tree in place, one file-system call
at a time, exactly as the Go functions do, and are proved to end in the
state those functions describe. Module `PassProperties` proves what whole
passes guarantee, for any walk order: frames, idempotence, and that
decompress, deletion of originals and recompress give the originals back
byte for byte when the decoder's verdict is sound.

Everything outside the tree is a parameter `Env`: the round-trip decoder
(`decode`: not gzip, failed to start, broke after writing some bytes, or
decoded with a verdict), the gzip writer (`compress`), which file-system
call fails on which path (`fails`), and what a failed copy leaves in its
destination (`torn`). `Env.VerdictSound` states what a true verdict
means: compressing the plaintext gives back the compressed bytes.

Where the documented design and the code differ, the model follows the
code:
- a per-file error ends the whole pass (the walk callback returns it, and
  `filepath.WalkDir` stops), it does not continue with the other files;
- a shadow is left on disk when decoding breaks, or a copy or close fails,
  after `os.Create` (gzip/util.go:53-74); it then also hides its original
  in the listing, and later decompress passes skip that original;
- the recompress pass never deletes a shadow;
- the recompress pass does not check that an entry is a regular file: a
  directory named like a shadow whose original is missing gets an empty
  original created for it, and the pass fails
  (`Passes.RecompressNonRegularShadow`).

## Model

| member | source | states |
|---|---|---|
| Naming.HasSuffix | gzip/util.go:24 | a name ends with the suffix exactly when it is some name followed by the suffix |
| Naming.TrimSuffix | gzip/util.go:93 | the result is a prefix of the input, shorter by exactly the suffix when the input ends with it, and the input itself otherwise |
| Naming.ShadowNameRoundTrip | gzip/util.go:28 | the shadow name `p + Suffix` ends with the suffix, and trimming it gives back `p`, the path the decompress pass read from |
| Naming.OriginalNameRoundTrip | gzip/util.go:89-93 | a name ending with the suffix is the shadow name of its trimmed form |
| Naming.ShadowNameMatches | gzip/util.go:150-151 | trimming `s` gives `k` exactly when `s` is `k + Suffix` (both directions) |
| Naming.ShadowNameInjective | gzip/util.go:28 | two different originals never share a shadow name |
| Naming.ShadowOfShadow | gzip/util.go:89-93 | the shadow name of a suffixed name ends with the suffix twice |
| Passes.DecompressFile | gzip/util.go:38-83 | decompress changes no directory or existing file, creates at most the destination, and reports any failure against the source |
| Passes.CompressFile | gzip/util.go:108-140 | compress changes no directory or existing file, creates at most the destination, and reports any failure against the source |
| Passes.Visit | gzip/util.go:18-104 | a walk callback keeps every existing entry unchanged and creates at most its target (the shadow, or the original), on a name that did not exist; a failure names the visited entry |
| Passes.Walk | gzip/util.go:17-105 | a pass never removes or rewrites an entry that existed when it started, never puts a file over a directory, and any error it returns names a walked entry |
| Passes.DecompressSkips | gzip/util.go:19-31 | non-regular entries, suffixed names and files whose shadow exists are left alone without error |
| Passes.DecompressNotGzip | gzip/util.go:44-48 | a file the decoder does not recognise as gzip (or an empty one) gives success and no shadow |
| Passes.DecompressKeepsTransparentShadow | gzip/util.go:53-82 | with a true verdict and no I/O error, the tree gains exactly the shadow holding the plaintext |
| Passes.DecompressDropsUntrustedShadow | gzip/util.go:76-80 | with a false verdict and no I/O error, the tree is as before: the shadow is removed again |
| Passes.DecompressLeavesPartialShadow | gzip/util.go:53-61 | a stream that breaks while copied fails the file and leaves the partial shadow on disk |
| Passes.DecompressFailureKeepsShadow | gzip/util.go:53-80 | once the shadow is created, every failure leaves it on disk, and success keeps it exactly when the verdict is true |
| Passes.DecompressVisitNewFile | gzip/util.go:20-33 | a decompress visit of `p` creates at most `p + Suffix`, only for a regular unsuffixed `p`, and on success only with the plaintext of a transparent stream |
| Passes.RecompressSkips | gzip/util.go:88-96 | names without the suffix, and shadows whose original exists, are left alone without error |
| Passes.RecompressRegeneratesOriginal | gzip/util.go:93-140 | a regular shadow with a missing original and no I/O error gives exactly one new file, the original, holding the compressed shadow |
| Passes.RecompressNonRegularShadow | gzip/util.go:87-123 | a non-regular entry named like a shadow with a missing original gets an empty original and the pass fails there |
| Passes.RecompressVisitNewFile | gzip/util.go:89-121 | a recompress visit of `s` creates at most the original whose shadow name is `s`, and on success it holds the compression of `s` |
| PassProperties.WalkAppend | gzip/util.go:18-34 | walking `a + b` is walking `a` then `b`, unless walking `a` already failed |
| PassProperties.WalkStopsAtFirstFailure | gzip/util.go:98-101 | a failing pass visited every entry before the failing one successfully, ends in the state the failing visit left, returns that entry's error and visits nothing after it |
| PassProperties.WalkOfNoOps | gzip/util.go:18-34 | a walk whose every visit would change nothing changes nothing and succeeds |
| PassProperties.WalkKeepsWellFormed | gzip/util.go:27-31 | no pass makes a path both a regular file and another kind of entry |
| PassProperties.DecompressWalkNewFiles | gzip/util.go:17-83 | every file a decompress pass adds is the shadow of an unsuffixed regular file it walked, and after success holds that file's transparently decoded plaintext |
| PassProperties.ShadowsAreFaithful | gzip/util.go:76-80 | after a successful decompress pass, with a sound verdict, every new shadow compresses back to its original's bytes |
| PassProperties.NonGzipPassthrough | gzip/util.go:44-48 | over a tree of plain files the decompress pass creates nothing and returns no error |
| PassProperties.SettledDecompressIsNoOp | gzip/util.go:23-80 | a file that has a shadow, or that the decoder declines without I/O error, is left as it is by a decompress visit |
| PassProperties.VisitSettlesDecompress | gzip/util.go:27-80 | after a successful decompress visit of `p`, another visit of `p` would change nothing |
| PassProperties.SettledDecompressStable | gzip/util.go:17-34 | once a later decompress visit of `p` would change nothing, no further decompress visits (of any entries) undo that |
| PassProperties.DecompressWalkSettles | gzip/util.go:17-34 | after a successful decompress pass, a visit of any walked entry would change nothing |
| PassProperties.DecompressIdempotent | gzip/util.go:23-80 | after a successful decompress pass over every regular file, a second pass with the same decoder and no failing file-system call changes nothing and succeeds, whatever it walks |
| PassProperties.RecompressWalkNewFiles | gzip/util.go:86-140 | every file a recompress pass adds is the original of a shadow it walked, and after success holds the compression of that shadow |
| PassProperties.RecompressWalkSettles | gzip/util.go:92-103 | after a successful recompress pass every walked shadow has its original |
| PassProperties.RecompressIdempotent | gzip/util.go:92-96 | after a successful recompress pass over every entry, none named with the suffix twice, a second pass over the entries then present changes nothing and succeeds |
| PassProperties.RecompressRestoresOriginals | gzip/util.go:17-140 | decompress, deletion of some originals (never together with their shadows), then recompress restores each deleted original whose shadow the decompress pass made, byte for byte, when the verdict is sound |
| PassExamples.DoubleShadowNotIdempotent | gzip/util.go:89-96 | a name ending with the suffix twice makes a second recompress pass create another file, so the hypothesis of RecompressIdempotent is needed |
| FileTree.Tree.Decompress | gzip/util.go:38-83 | the in-place decompress ends in the tree and error that Passes.DecompressFile gives |
| FileTree.Tree.DecompressAllIn | gzip/util.go:17-35 | the in-place decompress pass ends in the tree and error of Passes.Walk over the walked entries, and never makes a path both a file and another entry |
| FileTree.Tree.Compress | gzip/util.go:108-140 | the in-place compress ends in the tree and error that Passes.CompressFile gives |
| FileTree.Tree.RecompressAllIn | gzip/util.go:86-105 | the in-place recompress pass ends in the tree and error of Passes.Walk over the walked entries, and never makes a path both a file and another entry |
| Listing.LogicalView | gzip/util.go:143-161 | the listing holds only walked names, and no name whose shadow name was walked |
| Listing.LogicalViewMasks | gzip/util.go:143-161 | a walked name is listed exactly when its shadow name was not walked |
| Listing.LogicalViewWithinWalk | gzip/util.go:143-161 | the listing is a subset of the walked names and keeps every shadow not itself shadowed |
| Listing.ViewMaskingExample | gzip/util.go:156-159 | `a.gz`, its shadow and `b.txt` list as the shadow and `b.txt`; without the shadow `a.gz` is listed again |
| Listing.ListDecompressedOnly | gzip/util.go:143-161 | the returned map holds `true` for exactly the walked names whose shadow name was not walked, which is the walked set minus the trimmed shadow names |

## Left out

- main.go (command-line flags, the HTTP API server) is not part of this model.
- The round-trip decoder `NewRecompressibilityReader` and the gzip codec are not part of this model: they are the `decode` and `compress` parameters, and `Env.VerdictSound` is assumed, not proved, where a lemma needs it. That an empty file counts as not gzip is the decoder's business.
- The walk is an input: a sequence of the entries present when the pass starts, in any order (its lexical order is not modelled; the results hold for every order). `filepath.WalkDir` reads each directory only when it reaches it, but every file a pass creates lands in the directory of the entry being visited (`p + Suffix` at gzip/util.go:28, `TrimSuffix(p)` at gzip/util.go:93), which has already been read, so the walk never meets a file the pass created and a list taken at the start is the same. Its recursion, its ignored `err` argument and a nil `d` are not modelled, nor `filepath.Rel`: the listing takes the relative paths as input.
- Entry kinds other than regular files are one set: `os.Stat` is taken to succeed on all of them (a dangling symbolic link, on which it fails, is not distinguished), and opening one is taken to succeed and reading it to fail.
- `os.Stat` failing for a reason other than a missing path is not modelled: Stat is existence.
- The error of `os.Remove` (gzip/util.go:79) is ignored by the code; the model takes the removal to succeed.
- Error values are only "the pass failed at this walked entry"; wrapped message text and handles left open on error paths are not modelled.
- Passes.DecompressFile: when decoding breaks and the write into the shadow also fails, the decoder's partial output is what stays; which of the two happens first is not modelled.
- Passes.CompressFile: a failing Close of the gzip writer is modelled with the whole compressed output already in the original; what a failed final flush leaves is not modelled.
- Which file-system call fails is a fixed function `fails` of the call and the path within one `Env`; a pass run again in the same `Env` repeats the same failures.
- PassProperties.DecompressIdempotent: gives the second pass its own `Env` with the same decoder and no failing call; a second pass on which some open, create, copy or close fails may fail or leave a partial shadow, and is not covered.
- Concurrent passes and external changes to the tree during a pass are not modelled.
