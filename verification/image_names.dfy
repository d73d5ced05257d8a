/** The cover-resizing cloud function's decision logic: which blobs are originals, the name of a
    resized copy ("covers/x.jpg" at 150 pixels is "covers/x.s150.jpg"), which sizes are already
    up to date (their stored checksum matches the original's), and how many originals one run
    handles. Blob storage, image resizing and the completion message are left to the caller. */
module ImageNames {
  import opened Wrappers
  import opened Text

  // ----- characters and paths -----

  /** The part of a path after its last slash (all of it when there is none). */
  function Tail(p: string): (r: string)
    ensures '/' !in r && |r| <= |p| && p[|p| - |r|..] == r
  {
    if |p| == 0 then p
    else if p[|p| - 1] == '/' then ""
    else
      var t := Tail(p[..|p| - 1]);
      assert p[..|p| - 1][|p| - 1 - |t|..] == t;
      assert p[|p| - |t| - 1..] == t + [p[|p| - 1]];
      t + [p[|p| - 1]]
  }

  /** Trailing slashes removed. */
  function RStripSlashes(h: string): (r: string)
    ensures |r| <= |h| && h[..|r|] == r
    ensures |r| > 0 ==> r[|r| - 1] != '/'
  {
    if |h| > 0 && h[|h| - 1] == '/' then RStripSlashes(h[..|h| - 1]) else h
  }

  predicate AllSlashes(h: string) {
    forall k | 0 <= k < |h| :: h[k] == '/'
  }

  /** `os.path.split(p)[0]`: everything before the last part, trailing slashes removed unless
      it is nothing but slashes. */
  function Head(p: string): string
  {
    var cut := p[..|p| - |Tail(p)|];
    if |cut| > 0 && !AllSlashes(cut) then RStripSlashes(cut) else cut
  }

  /** The tail of a joined path: the second piece's tail if it holds a slash, else the first
      piece's tail continued by the whole second piece. */
  lemma {:induction false} TailAppend(a: string, b: string)
    ensures Tail(a + b) == if '/' in b then Tail(b) else Tail(a) + b
    decreases |b|
  {
    if |b| == 0 {
      assert a + b == a;
    } else {
      var last := b[|b| - 1];
      var b' := b[..|b| - 1];
      assert (a + b)[..|a + b| - 1] == a + b';
      assert b == b' + [last];
      TailAppend(a, b');
      if last != '/' {
        assert '/' in b <==> '/' in b';
      }
    }
  }

  lemma {:induction false} StripThroughSlash(folder: string)
    requires |folder| > 0 && folder[|folder| - 1] != '/'
    ensures RStripSlashes(folder + "/") == folder
  {
    assert (folder + "/")[..|folder|] == folder;
  }

  /** "folder/base" splits into the folder and the base when the base has no slash and the
      folder does not end in one. */
  lemma PathSplit(folder: string, base: string)
    requires '/' !in base && |folder| > 0 && folder[|folder| - 1] != '/'
    ensures Tail(folder + "/" + base) == base
    ensures Head(folder + "/" + base) == folder
  {
    var p := folder + "/" + base;
    TailAppend(folder + "/", base);
    assert Tail(folder + "/") == "";
    assert p[..|p| - |base|] == folder + "/";
    assert !AllSlashes(folder + "/") by {
      assert (folder + "/")[|folder| - 1] != '/';
    }
    StripThroughSlash(folder);
  }

  /** Removing slashes from the end leaves the dots alone. */
  lemma {:induction false} StripKeepsDots(h: string)
    ensures Count(RStripSlashes(h), '.') == Count(h, '.')
    decreases |h|
  {
    if |h| > 0 && h[|h| - 1] == '/' {
      StripKeepsDots(h[..|h| - 1]);
      assert h == h[..|h| - 1] + "/";
      CountAppend(h[..|h| - 1], "/", '.');
    }
  }

  /** A path's dots are those of its head and of its tail. */
  lemma PathDots(p: string)
    ensures Count(p, '.') == Count(Head(p), '.') + Count(Tail(p), '.')
  {
    var cut := p[..|p| - |Tail(p)|];
    assert p == cut + Tail(p);
    CountAppend(cut, Tail(p), '.');
    StripKeepsDots(cut);
  }

  // ----- originals and resized names -----

  /** FOLDERS_TO_PROCESS. */
  const Folders: set<string> := {"covers"}

  /** SIZES_TO_GENERATE. */
  const Sizes: seq<int> := [150]

  /** ORIGINAL_IMAGE_CRC32C: the metadata key holding the original's checksum. */
  const OriginalCrcKey := "original_image_crc32c"

  /** `is_original_image`: directly inside a processed folder, with exactly one dot in the file
      name. `os.path.split` always yields two parts, so its length check never rejects. */
  function IsOriginalImage(name: string): (b: bool)
  {
    Head(name) in Folders && Count(Tail(name), '.') == 1
  }

  /** Classification of "folder/base": the folder must be a processed one (a nested folder such
      as "covers/old" is not) and the base must hold exactly one dot. */
  lemma OriginalIff(folder: string, base: string)
    requires '/' !in base && |folder| > 0 && folder[|folder| - 1] != '/'
    ensures IsOriginalImage(folder + "/" + base) <==> folder in Folders && Count(base, '.') == 1
  {
    PathSplit(folder, base);
  }

  /** An original's whole name has a single dot, since "covers" has none. */
  lemma OriginalHasOneDot(name: string)
    requires IsOriginalImage(name)
    ensures Count(name, '.') == 1
  {
    PathDots(name);
    assert Head(name) == "covers";
    assert Count("covers", '.') == 0;
  }

  datatype ResizeError =
    | InvalidName(name: string)        // the assertion in generate_resized_image_name
    | MissingChecksum(name: string)    // KeyError: metadata without original_image_crc32c

  /** The two dot-parts of a name with exactly one dot: `name.split('.')`. */
  function DotParts(name: string): (r: (string, string))
    requires Count(name, '.') == 1
    ensures r.0 + "." + r.1 == name && '.' !in r.0 && '.' !in r.1
  {
    var parts := Split(name, ".");
    SplitCount(name, '.');
    JoinSplit(name, ".");
    SplitPiecesNoChar(name, '.');
    (parts[0], parts[1])
  }

  /** `generate_resized_image_name`: the size goes between the two dot-parts, as ".sN"; a name
      without exactly one dot fails the assertion. */
  function GenerateResizedImageName(original: string, size: int): (r: Result<string, ResizeError>)
    ensures r.Failure? <==> Count(original, '.') != 1
    ensures r.Failure? ==> r.error == InvalidName(original)
    ensures r.Success? ==> r.value == DotParts(original).0 + ".s" + IntText(size) + "." + DotParts(original).1
  {
    if Count(original, '.') != 1 then Failure(InvalidName(original))
    else
      var (stem, ext) := DotParts(original);
      Success(stem + ".s" + IntText(size) + "." + ext)
  }

  /** A suffix of a string without `c` is without `c` too. */
  lemma SuffixAvoids(s: string, t: string, c: char)
    requires c !in s && |t| <= |s| && s[|s| - |t|..] == t
    ensures c !in t
  {
    assert forall k | 0 <= k < |t| :: t[k] == s[|s| - |t| + k];
  }

  /** The extension of an original holds no slash: a slash there would leave the file name
      without a dot. */
  lemma SlashedExtension(stem: string, ext: string)
    requires '.' !in ext
    ensures '/' in ext ==> Count(Tail(stem + "." + ext), '.') == 0
  {
    TailAppend(stem + ".", ext);
    SuffixAvoids(ext, Tail(ext), '.');
    CountAbsent(Tail(ext), '.');
  }

  /** The part a resized name adds after the stem holds two dots. */
  lemma SuffixDots(n: string, ext: string)
    requires '.' !in n && '.' !in ext
    ensures Count(".s" + n + "." + ext, '.') == 2
  {
    assert ".s" + n + "." + ext == ".s" + (n + ("." + ext));
    CountAppend(".s", n + ("." + ext), '.');
    CountAppend(n, "." + ext, '.');
    CountAppend(".", ext, '.');
    CountAbsent(n, '.');
    CountAbsent(ext, '.');
  }

  /** A number's text holds neither a slash nor a dot. */
  lemma NumberPlain(size: int)
    ensures '/' !in IntText(size) && '.' !in IntText(size)
  {
    var n := IntText(size);
    IntTextSymbols(size);
    assert forall k | 0 <= k < |n| :: n[k] != '/' && n[k] != '.';
  }

  /** The file name's dots: those in the stem's last part, then the ones after it. */
  lemma TailDots(stem: string, suffix: string)
    requires '/' !in suffix
    ensures Count(Tail(stem + suffix), '.') == Count(Tail(stem), '.') + Count(suffix, '.')
  {
    TailAppend(stem, suffix);
    CountAppend(Tail(stem), suffix, '.');
  }

  /** The stem's last part holds no dot when the file name's one dot is the one before the
      extension. */
  lemma StemTailDotless(stem: string, ext: string)
    requires '.' !in ext && Count(Tail(stem + "." + ext), '.') == 1
    ensures Count(Tail(stem), '.') == 0
  {
    SlashedExtension(stem, ext);
    var suffix := "." + ext;
    assert stem + "." + ext == stem + suffix;
    TailDots(stem, suffix);
    CountAppend(".", ext, '.');
    CountAbsent(ext, '.');
  }

  lemma Regroup(stem: string, n: string, ext: string)
    ensures stem + ".s" + n + "." + ext == stem + (".s" + n + "." + ext)
  {
  }

  /** Putting ".s" and a dot-free, slash-free number before the dot of a name whose file name
      has one dot gives a file name with two. */
  lemma InsertedDots(stem: string, ext: string, n: string)
    requires '.' !in ext && '.' !in n && '/' !in n
    requires Count(Tail(stem + "." + ext), '.') == 1
    ensures Count(Tail(stem + ".s" + n + "." + ext), '.') == 2
  {
    SlashedExtension(stem, ext);
    StemTailDotless(stem, ext);
    var suffix := ".s" + n + "." + ext;
    SuffixDots(n, ext);
    Regroup(stem, n, ext);
    TailDots(stem, suffix);
  }

  /** A resized name has two dots in its file name: the original's and the one before the size. */
  lemma ResizedTailDots(name: string, size: int)
    requires IsOriginalImage(name)
    ensures GenerateResizedImageName(name, size).Success?
    ensures Count(Tail(GenerateResizedImageName(name, size).value), '.') == 2
  {
    OriginalHasOneDot(name);
    var (stem, ext) := DotParts(name);
    NumberPlain(size);
    InsertedDots(stem, ext, IntText(size));
  }

  /** A generated name is never itself classified as an original, so resized copies are never
      resized again. */
  lemma ResizedNeverOriginal(name: string, size: int)
    requires IsOriginalImage(name)
    ensures GenerateResizedImageName(name, size).Success?
    ensures !IsOriginalImage(GenerateResizedImageName(name, size).value)
  {
    ResizedTailDots(name, size);
  }

  // ----- the skip/download decision -----

  /** What the listing holds about a blob: its checksum and its custom metadata, if any. */
  datatype Blob = Blob(crc: string, metadata: Option<map<string, string>>)

  /** The condition for skipping a size: the resized blob exists, has metadata, and the checksum
      recorded there equals the original's. Metadata without the key raises a KeyError. */
  function UpToDate(resized: string, original: Blob, blobs: map<string, Blob>): (r: Result<bool, ResizeError>)
    ensures r.Failure? <==> (resized in blobs && blobs[resized].metadata.Some?
                             && OriginalCrcKey !in blobs[resized].metadata.value)
    ensures r.Success? ==> (r.value <==> (resized in blobs && blobs[resized].metadata.Some?
                                          && blobs[resized].metadata.value[OriginalCrcKey] == original.crc))
  {
    if resized !in blobs || blobs[resized].metadata.None? then Success(false)
    else
      var md := blobs[resized].metadata.value;
      if OriginalCrcKey !in md then Failure(MissingChecksum(resized))
      else Success(md[OriginalCrcKey] == original.crc)
  }

  /** An upload of a resized copy, tagged with the original's checksum. */
  datatype Upload = Upload(name: string, originalCrc: string)

  /** What `resize_image` does with one original: whether it was downloaded, the resized names it
      produced, and the uploads (none in a dry run). */
  datatype Plan = Plan(downloaded: bool, resized: seq<string>, uploads: seq<Upload>)

  /** The loop over the sizes; `downloaded` says whether the original is already on disk. */
  function ResizeSizes(name: string, original: Blob, blobs: map<string, Blob>, sizes: seq<int>,
                       downloaded: bool, dryRun: bool): (r: Result<Plan, ResizeError>)
    ensures r.Success? ==> (r.value.downloaded <==> downloaded || |r.value.resized| > 0)
    ensures r.Success? ==> |r.value.resized| <= |sizes|
    ensures r.Success? && !dryRun ==> (|r.value.uploads| == |r.value.resized|
                                       && forall k | 0 <= k < |r.value.uploads| ::
                                            r.value.uploads[k] == Upload(r.value.resized[k], original.crc))
    ensures r.Success? && dryRun ==> r.value.uploads == []
  {
    if |sizes| == 0 then Success(Plan(downloaded, [], []))
    else
      var resized :- GenerateResizedImageName(name, sizes[0]);
      var current :- UpToDate(resized, original, blobs);
      if current then ResizeSizes(name, original, blobs, sizes[1..], downloaded, dryRun)
      else
        var rest :- ResizeSizes(name, original, blobs, sizes[1..], true, dryRun);
        var upload := if dryRun then [] else [Upload(resized, original.crc)];
        Success(Plan(rest.downloaded, [resized] + rest.resized, upload + rest.uploads))
  }

  /** `resize_image`: the original is looked up in the listing and every size is checked. */
  function ResizeImage(name: string, blobs: map<string, Blob>, sizes: seq<int>, dryRun: bool): (r: Result<Plan, ResizeError>)
    requires name in blobs
    ensures r.Success? ==> (r.value.downloaded <==> |r.value.resized| > 0)
  {
    ResizeSizes(name, blobs[name], blobs, sizes, false, dryRun)
  }

  /** The generated names of the sizes, in size order. */
  function ResizedNames(name: string, sizes: seq<int>): (r: seq<string>)
    requires Count(name, '.') == 1
    ensures |r| == |sizes|
    ensures forall k | 0 <= k < |sizes| :: GenerateResizedImageName(name, sizes[k]) == Success(r[k])
  {
    if |sizes| == 0 then []
    else [GenerateResizedImageName(name, sizes[0]).value] + ResizedNames(name, sizes[1..])
  }

  /** The resized blob records the original's checksum. */
  predicate Current(resized: string, original: Blob, blobs: map<string, Blob>) {
    UpToDate(resized, original, blobs) == Success(true)
  }

  /** The names that are not up to date, in order. */
  function StaleOf(resized: seq<string>, original: Blob, blobs: map<string, Blob>): (r: seq<string>)
  {
    if |resized| == 0 then []
    else (if Current(resized[0], original, blobs) then [] else [resized[0]]) + StaleOf(resized[1..], original, blobs)
  }

  /** A name is stale exactly when it is one of the names and is not up to date. */
  lemma {:induction false} StaleIff(resized: seq<string>, original: Blob, blobs: map<string, Blob>, n: string)
    ensures n in StaleOf(resized, original, blobs) <==> n in resized && !Current(n, original, blobs)
    decreases |resized|
  {
    if |resized| > 0 {
      StaleIff(resized[1..], original, blobs, n);
      assert resized == [resized[0]] + resized[1..];
    }
  }

  lemma {:induction false} ResizesStale(name: string, original: Blob, blobs: map<string, Blob>, sizes: seq<int>,
                                       downloaded: bool, dryRun: bool)
    requires Count(name, '.') == 1
    requires ResizeSizes(name, original, blobs, sizes, downloaded, dryRun).Success?
    ensures ResizeSizes(name, original, blobs, sizes, downloaded, dryRun).value.resized
      == StaleOf(ResizedNames(name, sizes), original, blobs)
    decreases |sizes|
  {
    if |sizes| > 0 {
      var names := ResizedNames(name, sizes);
      assert names[1..] == ResizedNames(name, sizes[1..]);
      if Current(names[0], original, blobs) {
        ResizesStale(name, original, blobs, sizes[1..], downloaded, dryRun);
      } else {
        ResizesStale(name, original, blobs, sizes[1..], true, dryRun);
      }
    }
  }

  /** A size is resized exactly when its resized blob does not record the original's checksum
      (missing, without metadata, or with another checksum); the original is downloaded once,
      and only when some size needs it. */
  lemma SkipIff(name: string, blobs: map<string, Blob>, sizes: seq<int>, dryRun: bool, k: nat)
    requires name in blobs && Count(name, '.') == 1 && k < |sizes|
    requires ResizeImage(name, blobs, sizes, dryRun).Success?
    ensures ResizedNames(name, sizes)[k] in ResizeImage(name, blobs, sizes, dryRun).value.resized
      <==> !Recorded(ResizedNames(name, sizes)[k], blobs[name].crc, blobs)
  {
    var names := ResizedNames(name, sizes);
    assert ResizeImage(name, blobs, sizes, dryRun).value.resized == StaleOf(names, blobs[name], blobs) by {
      ResizesStale(name, blobs[name], blobs, sizes, false, dryRun);
    }
    StaleIff(names, blobs[name], blobs, names[k]);
    CurrentIff(names[k], blobs[name], blobs);
  }

  /** The resized blob exists, has metadata, and the metadata records this checksum. */
  predicate Recorded(resized: string, crc: string, blobs: map<string, Blob>) {
    && resized in blobs && blobs[resized].metadata.Some?
    && OriginalCrcKey in blobs[resized].metadata.value
    && blobs[resized].metadata.value[OriginalCrcKey] == crc
  }

  lemma CurrentIff(resized: string, original: Blob, blobs: map<string, Blob>)
    ensures Current(resized, original, blobs) <==> Recorded(resized, original.crc, blobs)
  {
  }

  // ----- a second run -----

  /** The listing after the uploads: each uploaded name now holds a blob whose metadata records
      the original's checksum; `contentCrc` stands for the resized file's own checksum. */
  function Apply(blobs: map<string, Blob>, uploads: seq<Upload>, contentCrc: string): (r: map<string, Blob>)
    ensures forall n :: n in r <==> n in blobs || exists k | 0 <= k < |uploads| :: uploads[k].name == n
  {
    if |uploads| == 0 then blobs
    else
      var u := uploads[|uploads| - 1];
      var before := Apply(blobs, uploads[..|uploads| - 1], contentCrc);
      assert forall k | 0 <= k < |uploads| - 1 :: uploads[..|uploads| - 1][k] == uploads[k];
      before[u.name := Blob(contentCrc, Some(map[OriginalCrcKey := u.originalCrc]))]
  }

  /** What the listing holds after the uploads, name by name. */
  lemma {:induction false} AppliedBlob(blobs: map<string, Blob>, uploads: seq<Upload>, contentCrc: string, crc: string, n: string)
    requires forall k | 0 <= k < |uploads| :: uploads[k].originalCrc == crc
    ensures (exists k | 0 <= k < |uploads| :: uploads[k].name == n) ==>
      Apply(blobs, uploads, contentCrc)[n] == Blob(contentCrc, Some(map[OriginalCrcKey := crc]))
    ensures (forall k | 0 <= k < |uploads| :: uploads[k].name != n) && n in blobs ==>
      Apply(blobs, uploads, contentCrc)[n] == blobs[n]
    decreases |uploads|
  {
    if |uploads| > 0 {
      var init := uploads[..|uploads| - 1];
      assert forall k | 0 <= k < |init| :: init[k] == uploads[k];
      AppliedBlob(blobs, init, contentCrc, crc, n);
      if uploads[|uploads| - 1].name != n && exists k | 0 <= k < |uploads| :: uploads[k].name == n {
        var k :| 0 <= k < |uploads| && uploads[k].name == n;
        assert init[k].name == n;
      }
    }
  }

  /** Every size whose resized blob is up to date is skipped, leaving nothing to do. */
  lemma {:induction false} NothingStale(name: string, original: Blob, blobs: map<string, Blob>, sizes: seq<int>,
                                      downloaded: bool, dryRun: bool)
    requires IsOriginalImage(name)
    requires forall k | 0 <= k < |sizes| ::
      GenerateResizedImageName(name, sizes[k]).Success?
      && UpToDate(GenerateResizedImageName(name, sizes[k]).value, original, blobs) == Success(true)
    ensures ResizeSizes(name, original, blobs, sizes, downloaded, dryRun) == Success(Plan(downloaded, [], []))
    decreases |sizes|
  {
    if |sizes| > 0 {
      assert forall k | 0 <= k < |sizes| - 1 :: sizes[1..][k] == sizes[k + 1];
      NothingStale(name, original, blobs, sizes[1..], downloaded, dryRun);
    }
  }

  /** After one size's name is written, or if it was already up to date, it is up to date. */
  lemma CurrentAfterApply(name: string, blobs: map<string, Blob>, plan: Plan, contentCrc: string, resized: string)
    requires name in blobs
    requires |plan.uploads| == |plan.resized|
    requires forall k | 0 <= k < |plan.uploads| :: plan.uploads[k] == Upload(plan.resized[k], blobs[name].crc)
    requires resized in plan.resized || UpToDate(resized, blobs[name], blobs) == Success(true)
    ensures UpToDate(resized, blobs[name], Apply(blobs, plan.uploads, contentCrc)) == Success(true)
  {
    var crc := blobs[name].crc;
    AppliedBlob(blobs, plan.uploads, contentCrc, crc, resized);
    if resized in plan.resized {
      var k :| 0 <= k < |plan.resized| && plan.resized[k] == resized;
      assert plan.uploads[k].name == resized;
    }
  }

  /** A second run over the listing the first run left behind does nothing: every size is up to
      date and the original is not downloaded again. */
  lemma SecondRunSkips(name: string, blobs: map<string, Blob>, sizes: seq<int>, contentCrc: string)
    requires name in blobs && IsOriginalImage(name)
    requires ResizeImage(name, blobs, sizes, false).Success?
    ensures var after := Apply(blobs, ResizeImage(name, blobs, sizes, false).value.uploads, contentCrc);
      name in after && ResizeImage(name, after, sizes, false) == Success(Plan(false, [], []))
  {
    OriginalHasOneDot(name);
    var plan := ResizeImage(name, blobs, sizes, false).value;
    var after := Apply(blobs, plan.uploads, contentCrc);
    var names := ResizedNames(name, sizes);
    ResizesStale(name, blobs[name], blobs, sizes, false, false);
    assert after[name] == blobs[name] by {
      AppliedBlob(blobs, plan.uploads, contentCrc, blobs[name].crc, name);
      forall k | 0 <= k < |plan.uploads| ensures plan.uploads[k].name != name {
        StaleIff(names, blobs[name], blobs, plan.resized[k]);
        StaleNames(name, sizes, plan.resized[k]);
      }
    }
    forall k | 0 <= k < |sizes|
      ensures GenerateResizedImageName(name, sizes[k]).Success?
      ensures UpToDate(GenerateResizedImageName(name, sizes[k]).value, after[name], after) == Success(true)
    {
      StaleIff(names, blobs[name], blobs, names[k]);
      CurrentAfterApply(name, blobs, plan, contentCrc, names[k]);
    }
    NothingStale(name, after[name], after, sizes, false, false);
  }

  /** A generated name is never the original's own name, nor an original at all. */
  lemma StaleNames(name: string, sizes: seq<int>, n: string)
    requires IsOriginalImage(name)
    requires Count(name, '.') == 1 && n in ResizedNames(name, sizes)
    ensures n != name && !IsOriginalImage(n)
  {
    var k :| 0 <= k < |sizes| && ResizedNames(name, sizes)[k] == n;
    ResizedTailDots(name, sizes[k]);
  }

  // ----- the run -----

  /** NUMBER_OF_IMAGES_TO_PROCESS: the environment value read with `int()`, 1 when unset; an
      unreadable value fails at import. */
  function NumberToProcess(setting: Option<string>): (r: Option<int>)
    ensures r == ParseInt(setting.GetOr("1"))
    ensures setting.None? ==> r == Some(1)
  {
    match setting
    case None =>
      assert IntText(1) == "1";
      IntTextRoundTrip(1);
      Some(1)
    case Some(v) => ParseInt(v)
  }

  /** Any whole number written in the environment is the number read back. */
  lemma NumberToProcessReadsBack(n: int)
    ensures NumberToProcess(Some(IntText(n))) == Some(n)
  {
    IntTextRoundTrip(n);
  }

  /** The originals among the listed names, in listing order. */
  function Originals(names: seq<string>): (r: seq<string>)
    ensures forall k | 0 <= k < |r| :: IsOriginalImage(r[k])
  {
    if |names| == 0 then []
    else (if IsOriginalImage(names[0]) then [names[0]] else []) + Originals(names[1..])
  }

  /** The loop in `resize_images`: each original is handled and counts down `left`; the loop
      stops when the count reaches exactly zero. */
  function Selected(names: seq<string>, left: int): seq<string>
  {
    if |names| == 0 then []
    else if IsOriginalImage(names[0]) then
      if left - 1 == 0 then [names[0]] else [names[0]] + Selected(names[1..], left - 1)
    else Selected(names[1..], left)
  }

  function Min(a: int, b: int): int {
    if a < b then a else b
  }

  /** With a positive budget the run handles the first `left` originals, or all of them if
      there are fewer. */
  lemma {:induction false} SelectedIsPrefix(names: seq<string>, left: int)
    requires left >= 1
    ensures Selected(names, left) == Originals(names)[..Min(left, |Originals(names)|)]
    decreases |names|
  {
    if |names| > 0 {
      var rest := Originals(names[1..]);
      if IsOriginalImage(names[0]) {
        assert Originals(names) == [names[0]] + rest;
        if left >= 2 {
          SelectedIsPrefix(names[1..], left - 1);
          ConsPrefix(names[0], rest, Min(left - 1, |rest|));
        }
      } else {
        assert Originals(names) == rest;
        SelectedIsPrefix(names[1..], left);
      }
    }
  }

  lemma ConsPrefix(x: string, rest: seq<string>, m: nat)
    requires m <= |rest|
    ensures ([x] + rest)[..m + 1] == [x] + rest[..m]
  {
  }

  /** With zero or a negative budget the countdown never reaches zero: every original is
      handled. */
  lemma {:induction false} UnlimitedBudget(names: seq<string>, left: int)
    requires left <= 0
    ensures Selected(names, left) == Originals(names)
    decreases |names|
  {
    if |names| > 0 {
      if IsOriginalImage(names[0]) {
        UnlimitedBudget(names[1..], left - 1);
      } else {
        UnlimitedBudget(names[1..], left);
      }
    }
  }

  /** A positive budget bounds the number of originals handled. */
  lemma BudgetBound(names: seq<string>, left: int)
    requires left >= 1
    ensures |Selected(names, left)| <= left
  {
    SelectedIsPrefix(names, left);
  }

  /** `resize_images` after the listing: each selected original in turn; the first error ends
      the run. The result is the uploads made. */
  function ResizeAll(selected: seq<string>, blobs: map<string, Blob>, sizes: seq<int>, dryRun: bool): (r: Result<seq<Upload>, ResizeError>)
    requires forall k | 0 <= k < |selected| :: selected[k] in blobs && IsOriginalImage(selected[k])
    ensures r.Success? ==> forall k | 0 <= k < |r.value| :: !IsOriginalImage(r.value[k].name)
  {
    if |selected| == 0 then Success([])
    else
      var plan :- ResizeImage(selected[0], blobs, sizes, dryRun);
      var rest :- ResizeAll(selected[1..], blobs, sizes, dryRun);
      UploadsNotOriginal(selected[0], blobs, sizes, dryRun);
      Success(plan.uploads + rest)
  }

  /** The uploads for an original are resized names, never originals. */
  lemma UploadsNotOriginal(name: string, blobs: map<string, Blob>, sizes: seq<int>, dryRun: bool)
    requires name in blobs && IsOriginalImage(name)
    requires ResizeImage(name, blobs, sizes, dryRun).Success?
    ensures forall k | 0 <= k < |ResizeImage(name, blobs, sizes, dryRun).value.uploads| ::
      !IsOriginalImage(ResizeImage(name, blobs, sizes, dryRun).value.uploads[k].name)
  {
    OriginalHasOneDot(name);
    var plan := ResizeImage(name, blobs, sizes, dryRun).value;
    var names := ResizedNames(name, sizes);
    ResizesStale(name, blobs[name], blobs, sizes, false, dryRun);
    forall k | 0 <= k < |plan.uploads| ensures !IsOriginalImage(plan.uploads[k].name) {
      StaleIff(names, blobs[name], blobs, plan.resized[k]);
      StaleNames(name, sizes, plan.resized[k]);
    }
  }

  // ----- the uploads a run makes before it raises -----

  /** The uploads `resize_image` makes over the sizes, in order: each stale size is uploaded
      before the next size is looked at, so the uploads before the first error stay made. */
  function SizeUploads(name: string, original: Blob, blobs: map<string, Blob>, sizes: seq<int>, dryRun: bool): (r: seq<Upload>)
    ensures dryRun ==> r == []
    ensures forall k | 0 <= k < |r| :: r[k].originalCrc == original.crc
  {
    if |sizes| == 0 then []
    else match GenerateResizedImageName(name, sizes[0])
      case Failure(_) => []
      case Success(resized) =>
        match UpToDate(resized, original, blobs)
        case Failure(_) => []
        case Success(current) =>
          (if current || dryRun then [] else [Upload(resized, original.crc)])
          + SizeUploads(name, original, blobs, sizes[1..], dryRun)
  }

  /** When the loop over the sizes completes, the uploads it made are the plan's uploads. */
  lemma {:induction false} SizeUploadsOfPlan(name: string, original: Blob, blobs: map<string, Blob>, sizes: seq<int>,
                                            downloaded: bool, dryRun: bool)
    requires ResizeSizes(name, original, blobs, sizes, downloaded, dryRun).Success?
    ensures SizeUploads(name, original, blobs, sizes, dryRun)
      == ResizeSizes(name, original, blobs, sizes, downloaded, dryRun).value.uploads
    decreases |sizes|
  {
    if |sizes| > 0 {
      var resized := GenerateResizedImageName(name, sizes[0]).value;
      if UpToDate(resized, original, blobs).value {
        SizeUploadsOfPlan(name, original, blobs, sizes[1..], downloaded, dryRun);
      } else {
        SizeUploadsOfPlan(name, original, blobs, sizes[1..], true, dryRun);
      }
    }
  }

  /** Every upload made, even by a loop that raises later, is one of the generated names whose
      blob did not record the original's checksum. */
  lemma {:induction false} SizeUploadsStale(name: string, original: Blob, blobs: map<string, Blob>, sizes: seq<int>,
                                           dryRun: bool, k: nat)
    requires Count(name, '.') == 1
    requires k < |SizeUploads(name, original, blobs, sizes, dryRun)|
    ensures SizeUploads(name, original, blobs, sizes, dryRun)[k].name in ResizedNames(name, sizes)
    ensures !Recorded(SizeUploads(name, original, blobs, sizes, dryRun)[k].name, original.crc, blobs)
    decreases |sizes|
  {
    var r := SizeUploads(name, original, blobs, sizes, dryRun);
    var resized := GenerateResizedImageName(name, sizes[0]).value;
    var head := if UpToDate(resized, original, blobs).value || dryRun then [] else [Upload(resized, original.crc)];
    var rest := SizeUploads(name, original, blobs, sizes[1..], dryRun);
    assert r == head + rest;
    assert ResizedNames(name, sizes) == [resized] + ResizedNames(name, sizes[1..]);
    if k < |head| {
      CurrentIff(resized, original, blobs);
    } else {
      SizeUploadsStale(name, original, blobs, sizes[1..], dryRun, k - |head|);
      assert r[k] == rest[k - |head|];
    }
  }

  /** The uploads `resize_images` makes: each selected original in turn, and after the first
      original that raises, nothing more, with that original's own uploads still made. */
  function RunUploads(selected: seq<string>, blobs: map<string, Blob>, sizes: seq<int>, dryRun: bool): (r: seq<Upload>)
    requires forall k | 0 <= k < |selected| :: selected[k] in blobs && IsOriginalImage(selected[k])
    ensures dryRun ==> r == []
    ensures forall k | 0 <= k < |r| :: !IsOriginalImage(r[k].name)
  {
    if |selected| == 0 then []
    else
      var name := selected[0];
      var made := SizeUploads(name, blobs[name], blobs, sizes, dryRun);
      var rest := if ResizeImage(name, blobs, sizes, dryRun).Failure? then []
                  else RunUploads(selected[1..], blobs, sizes, dryRun);
      OriginalHasOneDot(name);
      assert forall k | 0 <= k < |made| :: !IsOriginalImage(made[k].name) by {
        forall k | 0 <= k < |made| ensures !IsOriginalImage(made[k].name) {
          SizeUploadsStale(name, blobs[name], blobs, sizes, dryRun, k);
          StaleNames(name, sizes, made[k].name);
        }
      }
      made + rest
  }

  /** A run that completes reports exactly the uploads it made. */
  lemma {:induction false} RunUploadsOfSuccess(selected: seq<string>, blobs: map<string, Blob>, sizes: seq<int>, dryRun: bool)
    requires forall k | 0 <= k < |selected| :: selected[k] in blobs && IsOriginalImage(selected[k])
    requires ResizeAll(selected, blobs, sizes, dryRun).Success?
    ensures RunUploads(selected, blobs, sizes, dryRun) == ResizeAll(selected, blobs, sizes, dryRun).value
    decreases |selected|
  {
    if |selected| > 0 {
      var name := selected[0];
      SizeUploadsOfPlan(name, blobs[name], blobs, sizes, false, dryRun);
      RunUploadsOfSuccess(selected[1..], blobs, sizes, dryRun);
    }
  }

  /** A run that raises on its first original still keeps the uploads that original made
      before the error. */
  lemma FirstFailureKeepsUploads(selected: seq<string>, blobs: map<string, Blob>, sizes: seq<int>, dryRun: bool)
    requires forall k | 0 <= k < |selected| :: selected[k] in blobs && IsOriginalImage(selected[k])
    requires |selected| > 0 && ResizeImage(selected[0], blobs, sizes, dryRun).Failure?
    ensures ResizeAll(selected, blobs, sizes, dryRun).Failure?
    ensures RunUploads(selected, blobs, sizes, dryRun) == SizeUploads(selected[0], blobs[selected[0]], blobs, sizes, dryRun)
  {
  }

  /** `resize_images`: the originals of the listing, within the budget, at the configured sizes. */
  function ResizeImages(names: seq<string>, blobs: map<string, Blob>, left: int, dryRun: bool): (r: Result<seq<Upload>, ResizeError>)
    requires forall k | 0 <= k < |names| :: names[k] in blobs
    ensures r.Success? ==> forall k | 0 <= k < |r.value| :: !IsOriginalImage(r.value[k].name)
  {
    var selected := Selected(names, left);
    SelectedFromNames(names, left);
    ResizeAll(selected, blobs, Sizes, dryRun)
  }

  lemma {:induction false} SelectedFromNames(names: seq<string>, left: int)
    ensures forall k | 0 <= k < |Selected(names, left)| ::
      Selected(names, left)[k] in names && IsOriginalImage(Selected(names, left)[k])
    decreases |names|
  {
    if |names| > 0 {
      var left' := if IsOriginalImage(names[0]) then left - 1 else left;
      SelectedFromNames(names[1..], left');
      assert forall n | n in names[1..] :: n in names;
    }
  }
}
