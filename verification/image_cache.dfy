/** The site's map from cover URLs to their resized copies: built from the files of the covers
    folder (a file "x.s150.jpg" is the 150-pixel copy of "x.jpg") and consulted when a page asks
    for a cover at some size. The cache itself and the storage listing are parameters. */
module ImageCache {
  import opened Wrappers
  import opened Text
  import ImageNames

  /** FOLDERS. */
  const Folders: seq<string> := ["covers"]

  /** For each original URL, the URL of each resized copy by size. */
  type SizeMap = map<string, map<int, string>>

  /** A listed file that `sync_cache` cannot read. */
  datatype CacheError =
    | NoSizePart(file: string)   // IndexError: a base name without a dot
    | BadSize(file: string)      // ValueError: the part after the first dot is not "s" and a number

  /** What a resized file registers: the original's URL, the size and the file's own URL. */
  datatype Entry = Entry(original: string, size: int, url: string)

  /** `f'{settings.MEDIA_URL}{folder}/{name}'`. */
  function Url(mediaUrl: string, folder: string, name: string): string
  {
    mediaUrl + folder + "/" + name
  }

  /** One file of the loop: names with one dot are originals and register nothing; otherwise the
      second dot-part, without a leading "s", is the size, and the first and third dot-parts
      name the original. */
  function EntryOf(mediaUrl: string, folder: string, file: string): (r: Result<Option<Entry>, CacheError>)
    ensures |Split(ImageNames.Tail(file), ".")| == 2 <==> r == Success(None)
    ensures |Split(ImageNames.Tail(file), ".")| == 1 <==> r == Failure(NoSizePart(file))
  {
    var parts := Split(ImageNames.Tail(file), ".");
    if |parts| == 2 then Success(None)
    else if |parts| < 2 then Failure(NoSizePart(file))
    else
      match ParseInt(RemovePrefix(parts[1], "s"))
      case None => Failure(BadSize(file))
      case Some(size) =>
        Success(Some(Entry(Url(mediaUrl, folder, parts[0] + "." + parts[2]), size, Url(mediaUrl, folder, file))))
  }

  /** `sizes[original_url][size] = url`, creating the inner map on first use. */
  function Register(sizes: SizeMap, e: Entry): (r: SizeMap)
    ensures e.original in r && e.size in r[e.original] && r[e.original][e.size] == e.url
    ensures forall key | key in sizes :: key in r && forall s | s in sizes[key] :: s in r[key]
    ensures forall key, s | key in r && s in r[key] && (key, s) != (e.original, e.size) ::
      key in sizes && s in sizes[key] && r[key][s] == sizes[key][s]
  {
    var inner := if e.original in sizes then sizes[e.original] else map[];
    sizes[e.original := inner[e.size := e.url]]
  }

  /** What each listed file registers (or the error it raises), in listing order. */
  function Entries(mediaUrl: string, folder: string, files: seq<string>): (r: seq<Result<Option<Entry>, CacheError>>)
    ensures |r| == |files|
    ensures forall k | 0 <= k < |files| :: r[k] == EntryOf(mediaUrl, folder, files[k])
  {
    if |files| == 0 then [] else [EntryOf(mediaUrl, folder, files[0])] + Entries(mediaUrl, folder, files[1..])
  }

  /** The body of the loop over one folder's files, given what each file registers; the first
      unreadable file raises. */
  function Fold(sizes: SizeMap, entries: seq<Result<Option<Entry>, CacheError>>): (r: Result<SizeMap, CacheError>)
    decreases |entries|
  {
    if |entries| == 0 then Success(sizes)
    else
      var e :- entries[0];
      var next := if e.Some? then Register(sizes, e.value) else sizes;
      Fold(next, entries[1..])
  }

  /** The loop over one folder's files, in listing order. */
  function SyncFiles(sizes: SizeMap, mediaUrl: string, folder: string, files: seq<string>): Result<SizeMap, CacheError>
  {
    Fold(sizes, Entries(mediaUrl, folder, files))
  }

  /** The loop over the folders; a folder missing from storage is skipped. */
  function SyncFolders(sizes: SizeMap, storage: map<string, seq<string>>, mediaUrl: string, folders: seq<string>): (r: Result<SizeMap, CacheError>)
    decreases |folders|
  {
    if |folders| == 0 then Success(sizes)
    else if folders[0] !in storage then SyncFolders(sizes, storage, mediaUrl, folders[1..])
    else
      var next :- SyncFiles(sizes, mediaUrl, folders[0], storage[folders[0]]);
      SyncFolders(next, storage, mediaUrl, folders[1..])
  }

  /** `sync_cache`: the map built from the listed folders, starting empty. */
  function SyncCache(storage: map<string, seq<string>>, mediaUrl: string): Result<SizeMap, CacheError>
  {
    SyncFolders(map[], storage, mediaUrl, Folders)
  }

  /** `get_image_for_size`: the resized URL when the cache knows the file and the size, the
      file name itself otherwise. */
  function GetImageForSize(cache: Option<SizeMap>, filename: string, size: int): (r: string)
    ensures r != filename ==> cache.Some? && filename in cache.value && size in cache.value[filename]
    ensures cache.Some? && filename in cache.value && size in cache.value[filename] ==> r == cache.value[filename][size]
  {
    match cache
    case None => filename
    case Some(sizes) =>
      if filename !in sizes then filename
      else if size !in sizes[filename] then filename
      else sizes[filename][size]
  }

  // ----- reading the file names -----

  lemma Regroup3(a: string, b: string, c: string)
    ensures Join([a, b, c], ".") == a + "." + b + "." + c
  {
    assert [a, b, c][1..] == [b, c];
    assert [b, c][1..] == [c];
    assert Join([b, c], ".") == b + "." + c;
    assert Join([a, b, c], ".") == a + "." + (b + "." + c);
  }

  /** A name of three dot-free parts splits back into them. */
  lemma ThreeParts(a: string, b: string, c: string)
    requires '.' !in a && '.' !in b && '.' !in c
    ensures Split(a + "." + b + "." + c, ".") == [a, b, c]
  {
    Regroup3(a, b, c);
    SplitJoinChar([a, b, c], '.');
  }

  /** The size part of a resized name reads back as the size. */
  lemma SizePartReadsBack(size: int)
    ensures ParseInt(RemovePrefix("s" + IntText(size), "s")) == Some(size)
  {
    assert StartsWith("s" + IntText(size), "s");
    assert RemovePrefix("s" + IntText(size), "s") == IntText(size);
    IntTextRoundTrip(size);
  }

  lemma TailNoSlash(s: string)
    requires '/' !in s
    ensures ImageNames.Tail(s) == s
  {
    ImageNames.TailAppend("", s);
    assert "" + s == s;
  }

  /** What a resized name registers: the original's URL in the same folder, the size and the
      file's own URL. */
  lemma ResizedEntry(mediaUrl: string, folder: string, stem: string, size: int, ext: string)
    requires '.' !in stem && '.' !in ext && '/' !in stem && '/' !in ext
    ensures var file := stem + ".s" + IntText(size) + "." + ext;
      EntryOf(mediaUrl, folder, file)
        == Success(Some(Entry(Url(mediaUrl, folder, stem + "." + ext), size, Url(mediaUrl, folder, file))))
  {
    var n := IntText(size);
    ImageNames.NumberPlain(size);
    var file := stem + ".s" + n + "." + ext;
    assert stem + ".s" + n + "." + ext == stem + "." + ("s" + n) + "." + ext;
    assert '/' !in file;
    TailNoSlash(file);
    ThreeParts(stem, "s" + n, ext);
    SizePartReadsBack(size);
  }

  /** The two dot-parts of a slash-free name are slash-free. */
  lemma PartsNoSlash(base: string)
    requires Count(base, '.') == 1 && '/' !in base
    ensures '/' !in ImageNames.DotParts(base).0 && '/' !in ImageNames.DotParts(base).1
  {
    var (stem, ext) := ImageNames.DotParts(base);
    assert base == stem + "." + ext;
  }

  /** The name the resizing function gives an original's copy registers under the original's
      URL: the two halves of the naming convention agree. */
  lemma GeneratedNameKeysBack(mediaUrl: string, folder: string, base: string, size: int)
    requires Count(base, '.') == 1 && '/' !in base
    ensures ImageNames.GenerateResizedImageName(base, size).Success?
    ensures var file := ImageNames.GenerateResizedImageName(base, size).value;
      EntryOf(mediaUrl, folder, file) == Success(Some(Entry(Url(mediaUrl, folder, base), size, Url(mediaUrl, folder, file))))
  {
    var parts := ImageNames.DotParts(base);
    PartsNoSlash(base);
    ResizedEntry(mediaUrl, folder, parts.0, size, parts.1);
  }

  /** An original's own file registers nothing. */
  lemma OriginalSkipped(mediaUrl: string, folder: string, base: string)
    requires Count(base, '.') == 1 && '/' !in base
    ensures EntryOf(mediaUrl, folder, base) == Success(None)
  {
    TailNoSlash(base);
    SplitCount(base, '.');
  }

  /** A base name without a dot raises. */
  lemma DotlessFails(mediaUrl: string, folder: string, file: string)
    requires '.' !in ImageNames.Tail(file)
    ensures EntryOf(mediaUrl, folder, file) == Failure(NoSizePart(file))
  {
    CountAbsent(ImageNames.Tail(file), '.');
    SplitCount(ImageNames.Tail(file), '.');
  }

  /** A size part that is not "s" and a number raises. */
  lemma BadSizeFails(mediaUrl: string, folder: string, stem: string, middle: string, ext: string)
    requires '.' !in stem && '.' !in middle && '.' !in ext && '/' !in stem + middle + ext
    requires ParseInt(RemovePrefix(middle, "s")).None?
    ensures EntryOf(mediaUrl, folder, stem + "." + middle + "." + ext) == Failure(BadSize(stem + "." + middle + "." + ext))
  {
    var file := stem + "." + middle + "." + ext;
    assert '/' !in file;
    TailNoSlash(file);
    ThreeParts(stem, middle, ext);
  }

  // ----- the loop -----

  /** Whether an entry registers this original and size. */
  predicate Claims(entry: Result<Option<Entry>, CacheError>, original: string, size: int) {
    entry.Success? && entry.value.Some? && entry.value.value.original == original && entry.value.value.size == size
  }

  /** No entry after index `k` registers the same original and size. */
  predicate LastFor(entries: seq<Result<Option<Entry>, CacheError>>, k: nat, e: Entry) {
    forall j | k < j < |entries| :: !Claims(entries[j], e.original, e.size)
  }

  /** After the loop, every registered entry is in the map, pointing at its own URL unless a
      later entry registers the same original and size. */
  lemma {:induction false} FoldRegisters(sizes: SizeMap, entries: seq<Result<Option<Entry>, CacheError>>, k: nat)
    requires Fold(sizes, entries).Success?
    requires k < |entries|
    ensures entries[k].Success?
    ensures var e := entries[k].value;
      var r := Fold(sizes, entries).value;
      e.Some? ==> (e.value.original in r && e.value.size in r[e.value.original]
                   && (LastFor(entries, k, e.value) ==> r[e.value.original][e.value.size] == e.value.url))
    decreases |entries|
  {
    var e0 := entries[0].value;
    var next := if e0.Some? then Register(sizes, e0.value) else sizes;
    if k == 0 {
      if e0.Some? {
        FoldKeeps(next, entries[1..], e0.value);
        if LastFor(entries, 0, e0.value) {
          forall j | 0 <= j < |entries[1..]| ensures !Claims(entries[1..][j], e0.value.original, e0.value.size) {
            assert entries[1..][j] == entries[j + 1];
          }
        }
      }
    } else {
      FoldRegisters(next, entries[1..], k - 1);
      assert entries[1..][k - 1] == entries[k];
      var e := entries[k].value;
      if e.Some? && LastFor(entries, k, e.value) {
        forall j | k - 1 < j < |entries[1..]| ensures !Claims(entries[1..][j], e.value.original, e.value.size) {
          assert entries[1..][j] == entries[j + 1];
        }
      }
    }
  }

  /** An entry already in the map stays, with its URL unless some entry registers the same
      original and size again. */
  lemma {:induction false} FoldKeeps(sizes: SizeMap, entries: seq<Result<Option<Entry>, CacheError>>, e: Entry)
    requires Fold(sizes, entries).Success?
    requires e.original in sizes && e.size in sizes[e.original] && sizes[e.original][e.size] == e.url
    ensures var r := Fold(sizes, entries).value;
      e.original in r && e.size in r[e.original]
      && ((forall j | 0 <= j < |entries| :: !Claims(entries[j], e.original, e.size)) ==> r[e.original][e.size] == e.url)
    decreases |entries|
  {
    if |entries| > 0 {
      var e0 := entries[0].value;
      var next := if e0.Some? then Register(sizes, e0.value) else sizes;
      FoldKeeps(next, entries[1..], Entry(e.original, e.size, next[e.original][e.size]));
      forall j | 0 <= j < |entries| - 1 ensures entries[1..][j] == entries[j + 1] { }
    }
  }

  /** Nothing enters the map except what an entry registers: every size in the result was there
      before or is registered by some entry, with that entry's URL. */
  lemma {:induction false} FoldOnlyListed(sizes: SizeMap, entries: seq<Result<Option<Entry>, CacheError>>,
                                         key: string, size: int)
    requires Fold(sizes, entries).Success?
    requires var r := Fold(sizes, entries).value; key in r && size in r[key]
    ensures var r := Fold(sizes, entries).value;
      || (key in sizes && size in sizes[key] && r[key][size] == sizes[key][size])
      || exists k | 0 <= k < |entries| :: entries[k] == Success(Some(Entry(key, size, r[key][size])))
    decreases |entries|
  {
    if |entries| > 0 {
      var r := Fold(sizes, entries).value;
      var e0 := entries[0].value;
      var next := if e0.Some? then Register(sizes, e0.value) else sizes;
      FoldOnlyListed(next, entries[1..], key, size);
      if key in next && size in next[key] && r[key][size] == next[key][size] {
        if e0.Some? && (key, size) == (e0.value.original, e0.value.size) {
          assert entries[0] == Success(Some(Entry(key, size, r[key][size])));
        }
      } else {
        var k :| 0 <= k < |entries[1..]| && entries[1..][k] == Success(Some(Entry(key, size, r[key][size])));
        assert entries[1..][k] == entries[k + 1];
      }
    }
  }

  /** Every URL in a freshly built cache is a listed covers file, registered under its size. */
  lemma CacheOnlyListed(storage: map<string, seq<string>>, mediaUrl: string, key: string, size: int)
    requires "covers" in storage && SyncCache(storage, mediaUrl).Success?
    requires var r := SyncCache(storage, mediaUrl).value; key in r && size in r[key]
    ensures var r := SyncCache(storage, mediaUrl).value;
      exists k | 0 <= k < |storage["covers"]| ::
        EntryOf(mediaUrl, "covers", storage["covers"][k]) == Success(Some(Entry(key, size, r[key][size])))
  {
    SyncCoversOnly(storage, mediaUrl);
    FoldOnlyListed(map[], Entries(mediaUrl, "covers", storage["covers"]), key, size);
  }

  /** With a single folder in the list, `sync_cache` is the loop over the covers folder. */
  lemma SyncCoversOnly(storage: map<string, seq<string>>, mediaUrl: string)
    requires "covers" in storage
    ensures SyncCache(storage, mediaUrl) == SyncFiles(map[], mediaUrl, "covers", storage["covers"])
  {
    assert Folders[0] == "covers" && Folders[1..] == [];
    var r := SyncFiles(map[], mediaUrl, "covers", storage["covers"]);
    if r.Success? {
      assert SyncFolders(r.value, storage, mediaUrl, []) == Success(r.value);
    }
  }

  /** The round trip between the two sides: when the covers folder lists the copy the resizing
      function made of "base" at some size (and no later file claims that size), a page asking
      for that cover at that size gets the copy's URL. */
  lemma CoverRoundTrip(storage: map<string, seq<string>>, mediaUrl: string, base: string, size: int, k: nat)
    requires Count(base, '.') == 1 && '/' !in base
    requires "covers" in storage && k < |storage["covers"]|
    requires ImageNames.GenerateResizedImageName(base, size) == Success(storage["covers"][k])
    requires SyncCache(storage, mediaUrl).Success?
    requires forall j | k < j < |storage["covers"]| ::
      !Claims(EntryOf(mediaUrl, "covers", storage["covers"][j]), Url(mediaUrl, "covers", base), size)
    ensures GetImageForSize(Some(SyncCache(storage, mediaUrl).value), Url(mediaUrl, "covers", base), size)
      == Url(mediaUrl, "covers", storage["covers"][k])
  {
    var files := storage["covers"];
    var key := Url(mediaUrl, "covers", base);
    var url := Url(mediaUrl, "covers", files[k]);
    assert EntryOf(mediaUrl, "covers", files[k]) == Success(Some(Entry(key, size, url))) by {
      GeneratedNameKeysBack(mediaUrl, "covers", base, size);
    }
    SyncCoversOnly(storage, mediaUrl);
    FoldRegisters(map[], Entries(mediaUrl, "covers", files), k);
  }
}
