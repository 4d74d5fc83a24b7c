/** How the repository turns an image reference stored on a reaction back
    into the object name inside the storage bucket (`extractObjectName`), and
    how the upload builds that reference (`UploadReactionImage`). */
module ObjectName {
  import opened Basics
  import opened Strings

  /** The address prefix the repository recognises as its own object store. */
  const StorePrefix: string := "http://localhost:9000/"

  /** The bucket name the upload writes into the stored reference. */
  const ImageBucket: string := "aspirinimages"

  /** The reference prefix the upload writes: store address, bucket, slash. */
  const ImageUrlPrefix: string := "http://localhost:9000/aspirinimages/"

  /** The object name the upload chooses for reaction `id` and the client's
      file name `name`: `img/reaction_<id>_<name>`. */
  function ImageFileName(id: nat, name: string): string {
    "img/reaction_" + NatToString(id) + "_" + name
  }

  /** The reference stored in the reaction's `Src` after an upload. */
  function ImageSrc(fileName: string): string {
    ImageUrlPrefix + fileName
  }

  /** Drops a query string: everything from the first `?` on. */
  function StripQuery(src: string): (s: string)
    ensures '?' !in s
    ensures '?' !in src ==> s == src
    ensures '?' in src ==> |s| < |src| && src[..|s|] == s && src[|s|] == '?'
  {
    if '?' in src then
      FirstPieceBeforeSeparator(src, '?');
      Split(src, '?')[0]
    else src
  }

  /** The first position `k >= i` whose part is the bucket and is not the last
      part: the loop with early return over the split address. */
  function FindBucket(parts: seq<string>, bucket: string, i: nat): (k: Option<nat>)
    requires i <= |parts|
    ensures k.Some? ==> i <= k.value && k.value + 1 < |parts| && parts[k.value] == bucket
    ensures k.Some? ==> forall j :: i <= j < k.value ==> !(parts[j] == bucket && j + 1 < |parts|)
    ensures k.None? ==> forall j :: i <= j < |parts| ==> !(parts[j] == bucket && j + 1 < |parts|)
    decreases |parts| - i
  {
    if i == |parts| then None
    else if parts[i] == bucket && i + 1 < |parts| then Some(i)
    else FindBucket(parts, bucket, i + 1)
  }

  /** What remains after the query string is dropped: the path after the
      bucket segment when the address is the local store's and names the
      bucket, `img/` in front of a bare file name, and otherwise the text as
      it is. */
  function LocateObject(s: string, bucket: string): string {
    var found :=
      if Contains(s, StorePrefix) then
        var parts := Split(s, '/');
        match FindBucket(parts, bucket, 0)
        case Some(k) => Some(Join(parts[k + 1..], "/"))
        case None => None
      else None;
    if found.Some? then found.value
    else if '/' !in s then "img/" + s
    else s
  }

  /** `extractObjectName`. */
  function ExtractObjectName(src: string, bucket: string): string {
    LocateObject(StripQuery(src), bucket)
  }

  /** A prefix made of four slash-free pieces, each followed by a slash,
      splits off as those four pieces in front of the pieces of the rest. */
  lemma SplitFourPieces(prefix: string, a: string, b: string, c: string, d: string, g: string)
    requires '/' !in a && '/' !in b && '/' !in c && '/' !in d
    requires prefix == a + ['/'] + b + ['/'] + c + ['/'] + d + ['/']
    ensures Split(prefix + g, '/') == [a, b, c, d] + Split(g, '/')
  {
    var t3 := d + ['/'] + g;
    var t2 := c + ['/'] + t3;
    var t1 := b + ['/'] + t2;
    assert prefix + g == a + ['/'] + t1;
    SplitAfterPiece(d, '/', g);
    SplitAfterPiece(c, '/', t3);
    SplitAfterPiece(b, '/', t2);
    SplitAfterPiece(a, '/', t1);
  }

  /** The upload's reference prefix is four slash-free pieces, each followed
      by a slash. */
  lemma ImageUrlPrefixPieces()
    ensures ImageUrlPrefix == "http:" + ['/'] + "" + ['/'] + "localhost:9000" + ['/'] + "aspirinimages" + ['/']
  {
  }

  lemma PiecesSlashFree()
    ensures '/' !in "http:" && '/' !in "localhost:9000" && '/' !in "aspirinimages"
  {
  }

  /** The upload's reference splits at `/` into the address pieces, the
      bucket, and then the pieces of the object name. */
  lemma SplitImageSrc(g: string)
    ensures Split(ImageUrlPrefix + g, '/') == ["http:", "", "localhost:9000", "aspirinimages"] + Split(g, '/')
  {
    ImageUrlPrefixPieces();
    PiecesSlashFree();
    SplitFourPieces(ImageUrlPrefix, "http:", "", "localhost:9000", "aspirinimages", g);
  }

  /** Any text after the upload's reference prefix is read back as the object
      name, whatever slashes it holds. */
  lemma LocateAfterImagePrefix(g: string)
    ensures LocateObject(ImageUrlPrefix + g, ImageBucket) == g
  {
    var s := ImageUrlPrefix + g;
    assert Contains(s, StorePrefix) by {
      assert s[..|StorePrefix|] == StorePrefix;
      assert HasPrefix(s, StorePrefix);
    }
    var parts := Split(s, '/');
    SplitImageSrc(g);
    assert parts[3] == ImageBucket && 4 < |parts|;
    assert parts[0] != ImageBucket && parts[1] != ImageBucket && parts[2] != ImageBucket;
    assert FindBucket(parts, ImageBucket, 0) == Some(3);
    assert parts[4..] == Split(g, '/');
    JoinSplit(g, '/');
  }

  /** Extraction from an uploaded reference gives the stored object name up to
      its first `?`. */
  lemma ExtractFromImageSrc(f: string)
    ensures ExtractObjectName(ImageSrc(f), ImageBucket) == Split(f, '?')[0]
  {
    var g := Split(f, '?')[0];
    FirstPieceWhole(f, '?');
    FirstPieceAfterPrefix(ImageUrlPrefix, '?', f);
    assert StripQuery(ImageSrc(f)) == ImageUrlPrefix + g;
    LocateAfterImagePrefix(g);
  }

  /** Round trip: the object name read back from the reference an upload
      stores is exactly the object name it uploaded to, if and only if the
      client's file name holds no `?`. */
  lemma ImageRoundTrip(id: nat, name: string)
    ensures ExtractObjectName(ImageSrc(ImageFileName(id, name)), ImageBucket) == ImageFileName(id, name)
            <==> '?' !in name
  {
    var f := ImageFileName(id, name);
    ExtractFromImageSrc(f);
    FirstPieceWhole(f, '?');
    var p := "img/reaction_" + NatToString(id) + "_";
    assert f == p + name;
    assert '?' !in p;
  }

  /** A reference without any slash is a bare file name: once its query
      string is dropped, it gets the `img/` folder in front. */
  lemma BareNameGetsFolder(src: string, bucket: string)
    requires '/' !in src
    ensures ExtractObjectName(src, bucket) == "img/" + StripQuery(src)
  {
    var s := StripQuery(src);
    assert '/' !in s by {
      if '?' in src {
        forall k | 0 <= k < |s|
          ensures s[k] != '/'
        {
          assert s[k] == src[k];
        }
      }
    }
    if Contains(s, StorePrefix) {
      ContainsChars(s, StorePrefix, '/');
    }
  }
}
