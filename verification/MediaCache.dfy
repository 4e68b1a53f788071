/** Confirmed uploads become cached media, and a later replay of the cache is checked and planned as a fresh
    upload would have been. Sizes are u64 values. */
module MediaCache {
  import opened Prelude
  import opened DeliveryPlan

  const U64_MAX: int := 0xFFFF_FFFF_FFFF_FFFF
  const MAX_FILE_ID := 4096
  const MAX_SIZE := 2 * 1024 * 1024 * 1024

  datatype Kind = Photo | Video | Audio_ | File_

  /** Content metadata is only ever carried and asked whether it is valid. */
  datatype Metadata = Metadata(text: string, valid: bool)
  datatype Cached = Cached(kind: Kind, fileId: string, size: int, metadata: Option<Metadata>)
  datatype Upload = Upload(mediaType: string, size: int, metadata: Option<Metadata>)
  datatype Limits = Limits(maxArtifact: int, maxWorkspace: int, maxArtifacts: nat)

  predicate IsU64(n: int) {
    0 <= n <= U64_MAX
  }

  predicate FileIdChar(c: char) {
    'a' <= c <= 'z' || 'A' <= c <= 'Z' || '0' <= c <= '9' || c == '_' || c == '-' || c == '='
  }

  predicate ValidFileId(id: string) {
    1 <= |id| <= MAX_FILE_ID && forall c :: c in id ==> FileIdChar(c)
  }

  function NewCached(kind: Kind, fileId: string, size: int): Option<Cached> {
    if !ValidFileId(fileId) || size == 0 || size > MAX_SIZE then None
    else Some(Cached(kind, fileId, size, None))
  }

  function WithMetadata(c: Cached, metadata: Metadata): Option<Cached> {
    if metadata.valid then Some(c.(metadata := Some(metadata))) else None
  }

  function UploadKind(mediaType: string, sendAsFile: bool): Kind {
    if sendAsFile then File_
    else if mediaType == "image/jpeg" || mediaType == "image/png" then Photo
    else if mediaType == "video/mp4" then Video
    else if mediaType == "audio/mpeg" || mediaType == "audio/mp4" then Audio_
    else File_
  }

  function CategoryOf(kind: Kind): Category {
    match kind
    case Photo => Visual
    case Video => Visual
    case Audio_ => Audio
    case File_ => Document
  }

  /** The media type decides the kind and the kind the batch: photos and videos travel together, audio and documents
      by themselves; a request for plain files, or an unknown type, makes a document. */
  lemma MediaTypeDecides(mediaType: string, sendAsFile: bool)
    ensures var kind := UploadKind(mediaType, sendAsFile);
      && (kind == Photo <==> !sendAsFile && mediaType in {"image/jpeg", "image/png"})
      && (kind == Video <==> !sendAsFile && mediaType == "video/mp4")
      && (kind == Audio_ <==> !sendAsFile && mediaType in {"audio/mpeg", "audio/mp4"})
      && (CategoryOf(kind) == Visual <==> kind == Photo || kind == Video)
      && (CategoryOf(kind) == Audio <==> kind == Audio_) && (CategoryOf(kind) == Document <==> kind == File_)
  {
  }

  function UploadCategories(uploads: seq<Upload>, sendAsFile: bool): seq<Category> {
    seq(|uploads|, i requires 0 <= i < |uploads| => CategoryOf(UploadKind(uploads[i].mediaType, sendAsFile)))
  }

  function CachedCategories(media: seq<Cached>): seq<Category> {
    seq(|media|, i requires 0 <= i < |media| => CategoryOf(media[i].kind))
  }

  function SumSizes(sizes: seq<int>): int {
    if sizes == [] then 0 else SumSizes(sizes[..|sizes| - 1]) + sizes[|sizes| - 1]
  }

  function CachedSize(item: Cached): int {
    item.size
  }

  function UploadSize(upload: Upload): int {
    upload.size
  }

  function SizesOf<T>(items: seq<T>, size: T -> int): (r: seq<int>)
    ensures |r| == |items| && forall i :: 0 <= i < |r| ==> r[i] == size(items[i])
  {
    seq(|items|, i requires 0 <= i < |items| => size(items[i]))
  }

  lemma {:induction false} PrefixSumsGrow(sizes: seq<int>, k: nat)
    requires k <= |sizes| && forall i :: 0 <= i < |sizes| ==> sizes[i] >= 0
    ensures 0 <= SumSizes(sizes[..k]) <= SumSizes(sizes)
  {
    if k < |sizes| {
      var init := sizes[..|sizes| - 1];
      PrefixSumsGrow(init, k);
      assert init[..k] == sizes[..k];
    } else {
      assert sizes[..k] == sizes;
      if sizes != [] {
        var init := sizes[..|sizes| - 1];
        PrefixSumsGrow(init, |init|);
        assert init[..|init|] == init;
      }
    }
  }

  lemma NoSizes(sizes: seq<int>)
    ensures SumSizes(sizes[..0]) == 0
  {
  }

  lemma NextSum(sizes: seq<int>, i: nat)
    requires i < |sizes|
    ensures SumSizes(sizes[..i + 1]) == SumSizes(sizes[..i]) + sizes[i]
  {
    assert sizes[..i + 1][..i] == sizes[..i];
  }

  predicate ItemOk(item: Cached, limits: Limits, sendAsFile: bool) {
    item.metadata.Some? && item.size <= limits.maxArtifact && (sendAsFile ==> item.kind == File_)
  }

  /** valid_cached_media: its checked u64 running total never overflows before it passes the workspace limit,
      so the verdict is the one over the mathematical sum. */
  method ValidCachedMedia(media: seq<Cached>, limits: Limits, sendAsFile: bool) returns (valid: bool)
    requires forall i :: 0 <= i < |media| ==> IsU64(media[i].size)
    requires IsU64(limits.maxArtifact) && IsU64(limits.maxWorkspace)
    ensures valid <==>
      && 1 <= |media| <= limits.maxArtifacts
      && (forall i :: 0 <= i < |media| ==>
            && media[i].metadata.Some? && media[i].size <= limits.maxArtifact
            && (sendAsFile ==> media[i].kind == File_))
      && SumSizes(SizesOf(media, CachedSize)) <= limits.maxWorkspace
  {
    if |media| == 0 || |media| > limits.maxArtifacts {
      return false;
    }
    hide SumSizes;
    var total := 0;
    ghost var sizes := SizesOf(media, CachedSize);
    NoSizes(sizes);
    for i := 0 to |media|
      invariant total == SumSizes(sizes[..i]) && 0 <= total <= limits.maxWorkspace
      invariant forall j :: 0 <= j < i ==>
        && media[j].metadata.Some? && media[j].size <= limits.maxArtifact
        && (sendAsFile ==> media[j].kind == File_)
    {
      var size := media[i].size;
      if media[i].metadata.None? || size > limits.maxArtifact || (sendAsFile && media[i].kind != File_) {
        return false;
      }
      NextSum(sizes, i);
      PrefixSumsGrow(sizes, i + 1);
      if total + size > U64_MAX {
        return false;
      }
      var next := total + size;
      if next > limits.maxWorkspace {
        return false;
      }
      total := next;
    }
    assert sizes[..|media|] == sizes;
    return true;
  }

  function BuildItems(uploads: seq<Upload>, fileIds: seq<Option<string>>, sendAsFile: bool): Option<seq<Cached>>
    decreases |uploads|
  {
    if |uploads| != |fileIds| then None
    else if uploads == [] then Some([])
    else
      var u := uploads[0];
      var kind := UploadKind(u.mediaType, sendAsFile);
      var item := if fileIds[0].None? then None else NewCached(kind, fileIds[0].value, u.size);
      var full := if item.None? || u.metadata.None? then None else WithMetadata(item.value, u.metadata.value);
      var rest := BuildItems(uploads[1..], fileIds[1..], sendAsFile);
      if full.None? || rest.None? then None else Some([full.value] + rest.value)
  }

  predicate Publishable(u: Upload, fileId: Option<string>) {
    && fileId.Some? && ValidFileId(fileId.value)
    && u.size != 0 && u.size <= MAX_SIZE
    && u.metadata.Some? && u.metadata.value.valid
  }

  /** build_cached_media, then with_metadata on every item. */
  function BuildCached(uploads: seq<Upload>, fileIds: seq<Option<string>>, sendAsFile: bool): Option<seq<Cached>> {
    if uploads == [] || |uploads| != |fileIds| then None else BuildItems(uploads, fileIds, sendAsFile)
  }

  /** Publication is all-or-nothing, and it keeps every item's kind, file ID, size and metadata in place. */
  lemma {:induction false} BuildItemsAll(uploads: seq<Upload>, fileIds: seq<Option<string>>, sendAsFile: bool)
    requires |uploads| == |fileIds|
    ensures BuildItems(uploads, fileIds, sendAsFile).Some? <==>
      forall i :: 0 <= i < |uploads| ==> Publishable(uploads[i], fileIds[i])
    ensures BuildItems(uploads, fileIds, sendAsFile).Some? ==>
      var media := BuildItems(uploads, fileIds, sendAsFile).value;
      && |media| == |uploads|
      && forall i :: 0 <= i < |uploads| ==>
           && fileIds[i].Some?
           && media[i] == Cached(UploadKind(uploads[i].mediaType, sendAsFile), fileIds[i].value,
                                 uploads[i].size, uploads[i].metadata)
    decreases |uploads|
  {
    if uploads != [] {
      BuildItemsAll(uploads[1..], fileIds[1..], sendAsFile);
      if BuildItems(uploads[1..], fileIds[1..], sendAsFile).None? {
        var i :| 0 <= i < |uploads| - 1 && !Publishable(uploads[1..][i], fileIds[1..][i]);
        assert !Publishable(uploads[i + 1], fileIds[i + 1]);
      } else {
        assert forall i :: 1 <= i < |uploads| ==>
          uploads[1..][i - 1] == uploads[i] && fileIds[1..][i - 1] == fileIds[i];
      }
    }
  }

  /** Replay agrees with upload: what was published is accepted again exactly when the uploads were within the
      same limits, with the same total, and is cut into exactly the units of the upload. */
  lemma ReplayAgreesWithUpload(uploads: seq<Upload>, fileIds: seq<Option<string>>, limits: Limits, sendAsFile: bool)
    requires |uploads| == |fileIds| && BuildCached(uploads, fileIds, sendAsFile).Some?
    ensures var media := BuildCached(uploads, fileIds, sendAsFile).value;
      && SizesOf(media, CachedSize) == SizesOf(uploads, UploadSize)
      && Plan(CachedCategories(media)) == Plan(UploadCategories(uploads, sendAsFile))
      && ((1 <= |media| <= limits.maxArtifacts
           && (forall i :: 0 <= i < |media| ==> ItemOk(media[i], limits, sendAsFile))
           && SumSizes(SizesOf(media, CachedSize)) <= limits.maxWorkspace)
          <==>
          (1 <= |uploads| <= limits.maxArtifacts
           && (forall i :: 0 <= i < |uploads| ==> uploads[i].size <= limits.maxArtifact)
           && SumSizes(SizesOf(uploads, UploadSize)) <= limits.maxWorkspace))
  {
    BuildItemsAll(uploads, fileIds, sendAsFile);
    var media := BuildCached(uploads, fileIds, sendAsFile).value;
    assert SizesOf(media, CachedSize) == SizesOf(uploads, UploadSize);
    assert CachedCategories(media) == UploadCategories(uploads, sendAsFile);
    forall i | 0 <= i < |media|
      ensures ItemOk(media[i], limits, sendAsFile) <==> uploads[i].size <= limits.maxArtifact
    {
    }
  }
}
