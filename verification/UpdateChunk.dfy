/** Chunked download of update files: the byte range of one chunk, and a client that
    asks for chunk after chunk until it is told that it has the last one. */
module UpdateChunk {
  import opened Prelude

  const MAX_CHUNK_SIZE: nat := 512 * 1024
  const DEFAULT_PLATFORM := "linux-x86_64-deb"

  datatype Entry = Entry(file: string, size: u64)

  /** The object store. `otherwise` is the body of any answer but a satisfied range, whose
      status the server does not look at. */
  datatype Store = Store(manifest: map<string, Entry>, files: map<string, Bytes>, otherwise: Bytes)

  datatype Request = Request(currentVersion: string, offset: u64, chunkSize: u32)

  datatype Result =
    | Chunk(offset: u64, data: Bytes, isLast: bool, total: u64)
    | PlatformMissing
    | Overflow

  /** An inclusive byte range, as in section 14.1.2 of RFC 9110. */
  function ReadRange(store: Store, file: string, first: nat, last: nat): Bytes {
    if file in store.files && first <= last && first < |store.files[file]|
    then store.files[file][first..Min(last + 1, |store.files[file]|)]
    else store.otherwise
  }

  function PlatformOf(r: Request): string {
    if r.currentVersion != "" then r.currentVersion else DEFAULT_PLATFORM
  }

  function Capped(chunkSize: u32): nat {
    Min(chunkSize, MAX_CHUNK_SIZE)
  }

  /** `end`, when none of its operations leaves the range of `u64`. */
  function End(offset: u64, chunkSize: nat, total: u64): Option<nat> {
    if offset + chunkSize >= 0x1_0000_0000_0000_0000 || offset + chunkSize == 0 || total == 0 then None
    else Some(Min(offset + chunkSize - 1, total - 1))
  }

  function GetUpdateChunk(store: Store, r: Request): Result {
    if PlatformOf(r) !in store.manifest then PlatformMissing
    else
      var entry := store.manifest[PlatformOf(r)];
      var end := End(r.offset, Capped(r.chunkSize), entry.size);
      if end == None then Overflow
      else
        var data := ReadRange(store, entry.file, r.offset, end.value);
        if r.offset + |data| >= 0x1_0000_0000_0000_0000 then Overflow
        else Chunk(r.offset, data, r.offset + |data| >= entry.size, entry.size)
  }

  /** The manifest tells the true size of the platform's file. */
  predicate Publishes(store: Store, platform: string, contents: Bytes) {
    && platform in store.manifest && store.manifest[platform].file in store.files
    && store.files[store.manifest[platform].file] == contents
    && store.manifest[platform].size == |contents|
  }

  /** The request names its platform, or means the one for Debian. */
  predicate PublishesFor(store: Store, version: string, contents: Bytes) {
    Publishes(store, if version == "" then "linux-x86_64-deb" else version, contents)
  }

  /** The bytes from `offset` up to `end`, or whatever else comes when there are none. */
  function Body(store: Store, file: string, offset: nat, end: nat): Bytes {
    if file in store.files && offset < end && offset < |store.files[file]|
    then store.files[file][offset..Min(end, |store.files[file]|)]
    else store.otherwise
  }

  /** For any manifest and any files: the answer names the platform asked for or the one for
      Debian; its data are at most 524288 bytes from the offset, and no more than the manifest
      tells; it is the last one if it reaches the size told. */
  lemma {:induction false} AnsweredExactly(store: Store, r: Request)
    ensures var platform := if r.currentVersion == "" then "linux-x86_64-deb" else r.currentVersion;
            if platform !in store.manifest then GetUpdateChunk(store, r) == PlatformMissing
            else
              var entry, end := store.manifest[platform], r.offset + Min(r.chunkSize, 524_288);
              var data := Body(store, entry.file, r.offset, Min(end, entry.size));
              GetUpdateChunk(store, r)
              == if 0 < end < 0x1_0000_0000_0000_0000 && 0 < entry.size && r.offset + |data| < 0x1_0000_0000_0000_0000
                 then Chunk(r.offset, data, r.offset + |data| >= entry.size, entry.size)
                 else Overflow
  {
  }

  /** Within the file, a chunk is the part of it that was asked for, and is the last one
      exactly when nothing follows it. */
  lemma {:induction false} ChunkExactly(store: Store, r: Request, contents: Bytes)
    requires PublishesFor(store, r.currentVersion, contents) && r.offset < |contents|
    ensures var c := Min(r.chunkSize, 524_288);
            && (GetUpdateChunk(store, r).Chunk? ==> c > 0 || r.offset > 0)
            && (c > 0 ==>
                  if r.offset + c < 0x1_0000_0000_0000_0000
                  then GetUpdateChunk(store, r) ==
                         Chunk(r.offset, contents[r.offset..Min(r.offset + c, |contents|)],
                               r.offset + c >= |contents|, |contents|)
                  else GetUpdateChunk(store, r) == Overflow)
  {
    var c := Capped(r.chunkSize);
    if c > 0 && r.offset + c < 0x1_0000_0000_0000_0000 {
      var end := End(r.offset, c, |contents|);
      assert Min(end.value + 1, |contents|) == Min(r.offset + c, |contents|);
    }
  }

  /** With `q` full chunks before the last one, there are `q + 1` chunks. */
  lemma {:induction false} ChunkCount(size: nat, c: nat, q: nat)
    requires c > 0 && q * c < size <= q * c + c
    ensures CeilDiv(size, c) == q + 1 && CeilDiv(size, c) * c == q * c + c
  {
    assert size + c - 1 == (q + 1) * c + (size - 1 - q * c);
    DivUnique(size + c - 1, c, q + 1, size - 1 - q * c);
  }

  lemma {:induction false} ChunksBefore(size: nat, c: nat, q: nat)
    requires c > 0 && q * c < size
    ensures q * c + c <= CeilDiv(size, c) * c
  {
    assert (q + 1) * c == q * c + c;
    DivUnique((q + 1) * c, c, q + 1, 0);
    DivMonotone((q + 1) * c, size + c - 1, c);
    MulMonotone(c, q + 1, CeilDiv(size, c));
  }

  /** The download is possible when there is something to download, by chunks that are
      not empty, and the end of the last full chunk is still a `u64`. */
  predicate Downloadable(size: nat, c: nat) {
    size > 0 && c > 0 && CeilDiv(size, c) * c < 0x1_0000_0000_0000_0000
  }

  /** After `requests` chunks; `done` tells that the last of them said so. */
  ghost predicate Receiving(contents: Bytes, c: nat, data: Bytes, requests: nat, done: bool) {
    if done then data == contents && Downloadable(|contents|, c) && requests == CeilDiv(|contents|, c)
    else |data| == requests * c && data <= contents && (|data| < |contents| || requests == 0)
  }

  lemma {:induction false} NextChunk(store: Store, r: Request, contents: Bytes, data: Bytes, requests: nat)
    requires PublishesFor(store, r.currentVersion, contents) && r.offset == |data| < |contents|
    requires Capped(r.chunkSize) > 0 && Receiving(contents, Capped(r.chunkSize), data, requests, false)
    ensures var c, chunk := Capped(r.chunkSize), GetUpdateChunk(store, r);
            if chunk.Chunk?
            then Receiving(contents, c, data + chunk.data, requests + 1, chunk.isLast) && |chunk.data| > 0
            else !Downloadable(|contents|, c)
  {
    var c := Capped(r.chunkSize);
    ChunkExactly(store, r, contents);
    ChunksBefore(|contents|, c, requests);
    if |data| + c >= |contents| {
      ChunkCount(|contents|, c, requests);
      assert data + contents[|data|..] == contents;
    } else {
      assert data + contents[|data|..|data| + c] == contents[..|data| + c];
      assert (requests + 1) * c == requests * c + c;
    }
  }

  /** Asking from the start, and on from the bytes received, until `is_last`: yields the
      whole file in as many requests as it has chunks, and succeeds exactly when it can. */
  method Download(store: Store, version: string, chunkSize: u32, contents: Bytes)
    returns (ok: bool, data: Bytes, requests: nat)
    requires PublishesFor(store, version, contents)
    ensures ok <==> Downloadable(|contents|, Min(chunkSize, 524_288))
    ensures ok ==> data == contents && requests == CeilDiv(|contents|, Min(chunkSize, 524_288))
  {
    ok, data, requests := false, [], 0;
    ghost var c := Capped(chunkSize);
    while !ok
      invariant Receiving(contents, c, data, requests, ok)
      decreases |contents| - |data|, !ok
    {
      var r := Request(version, |data|, chunkSize);
      if c > 0 && |data| < |contents| {
        NextChunk(store, r, contents, data, requests);
      }
      var chunk := GetUpdateChunk(store, r);
      if !chunk.Chunk? {
        return;
      }
      data, requests, ok := data + chunk.data, requests + 1, chunk.isLast;
    }
  }
}
