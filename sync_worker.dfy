/** The reconciliation pass (`SyncWorker`): fetch the remote manifest, list the local
    photos, delete local photos whose digest the server no longer lists, download remote
    photos whose digest is not present locally, and post a reload request if anything
    changed. Photos are identified by digest only; file names are never compared. */
module SyncWorker {
  import opened Model
  import opened Sequences
  import opened Streams
  import opened PhotoRepository

  /** The symbolic host the manifest's URLs use. */
  const FrameHost: string := "http://frame"

  /** The address the frame reaches the server at (`BASE_URL`). */
  const BaseUrl: string := "http://192.168.1.16:5556"

  /** One manifest entry. */
  datatype RemotePhoto = RemotePhoto(name: string, url: string, digest: string)

  // ---------------------------------------------------------------------------
  // URL rewrite (getRemotePhotoList)
  // ---------------------------------------------------------------------------

  /** `target` occurs in `s` at index `i`. */
  predicate OccursAt(target: string, s: string, i: nat) {
    i + |target| <= |s| && s[i..i + |target|] == target
  }

  /** `target` occurs somewhere in `s`. */
  ghost predicate Occurs(target: string, s: string) {
    exists i: nat :: OccursAt(target, s, i)
  }

  /** Kotlin's `s.replace(target, replacement)` for a non-empty target: every occurrence,
      scanning left to right, non-overlapping. */
  function ReplaceAll(s: string, target: string, replacement: string): string
    requires |target| > 0
    decreases |s|
  {
    if s == [] then []
    else if StartsWith(s, target) then replacement + ReplaceAll(s[|target|..], target, replacement)
    else [s[0]] + ReplaceAll(s[1..], target, replacement)
  }

  /** Text without an occurrence of the target is left as it is. */
  lemma {:induction false} ReplaceAllAbsent(s: string, target: string, replacement: string)
    requires |target| > 0 && !Occurs(target, s)
    ensures ReplaceAll(s, target, replacement) == s
    decreases |s|
  {
    if s != [] {
      var start: nat := 0;
      assert !StartsWith(s, target) by {
        assert StartsWith(s, target) ==> OccursAt(target, s, start);
      }
      assert !Occurs(target, s[1..]) by {
        forall i: nat | OccursAt(target, s[1..], i) ensures OccursAt(target, s, i + 1) {
          assert s[1..][i..i + |target|] == s[i + 1..i + 1 + |target|];
        }
      }
      ReplaceAllAbsent(s[1..], target, replacement);
      assert s == [s[0]] + s[1..];
    }
  }

  /** A manifest URL on the symbolic host is moved to the base URL with its path and
      query kept. */
  lemma RewriteFrameHost(rest: string)
    requires !Occurs(FrameHost, rest)
    ensures ReplaceAll(FrameHost + rest, FrameHost, BaseUrl) == BaseUrl + rest
  {
    var s := FrameHost + rest;
    assert StartsWith(s, FrameHost);
    assert s[|FrameHost|..] == rest;
    ReplaceAllAbsent(rest, FrameHost, BaseUrl);
  }

  /** The `photos.map { ... }` of `getRemotePhotoList`. */
  function RewriteUrls(photos: seq<RemotePhoto>): (r: seq<RemotePhoto>)
    ensures |r| == |photos|
    ensures forall i :: 0 <= i < |photos| ==>
      && r[i].name == photos[i].name
      && r[i].digest == photos[i].digest
      && r[i].url == ReplaceAll(photos[i].url, FrameHost, BaseUrl)
  {
    if photos == [] then []
    else [RemotePhoto(photos[0].name, ReplaceAll(photos[0].url, FrameHost, BaseUrl), photos[0].digest)]
         + RewriteUrls(photos[1..])
  }

  // ---------------------------------------------------------------------------
  // The diff
  // ---------------------------------------------------------------------------

  /** `localPhotos.any { p -> p.digest == d }`. */
  predicate HasLocalDigest(local: seq<Photo>, d: string) {
    exists i :: 0 <= i < |local| && local[i].digest == d
  }

  /** `remotePhotos.any { p -> p.digest == d }`. */
  predicate HasRemoteDigest(remote: seq<RemotePhoto>, d: string) {
    exists i :: 0 <= i < |remote| && remote[i].digest == d
  }

  function LocalDigests(local: seq<Photo>): set<string> {
    set p | p in local :: p.digest
  }

  function RemoteDigests(remote: seq<RemotePhoto>): set<string> {
    set r | r in remote :: r.digest
  }

  /** The URL rewrite leaves the set of digests the manifest lists as it is. */
  lemma RewriteKeepsDigests(manifest: seq<RemotePhoto>)
    ensures RemoteDigests(RewriteUrls(manifest)) == RemoteDigests(manifest)
  {
    var remote := RewriteUrls(manifest);
    forall d | d in RemoteDigests(manifest) ensures d in RemoteDigests(remote) {
      var r :| r in manifest && r.digest == d;
      var i :| 0 <= i < |manifest| && manifest[i] == r;
      assert remote[i] in remote;
    }
    forall d | d in RemoteDigests(remote) ensures d in RemoteDigests(manifest) {
      var r :| r in remote && r.digest == d;
      var i :| 0 <= i < |remote| && remote[i] == r;
      assert manifest[i] in manifest;
    }
  }

  /** The remote entries to download: those whose digest no local photo has. */
  function DownloadList(remote: seq<RemotePhoto>, local: seq<Photo>): seq<RemotePhoto> {
    Filter(remote, (r: RemotePhoto) => !HasLocalDigest(local, r.digest))
  }

  /** The local photos to delete: those whose digest no remote entry has. */
  function DeleteList(remote: seq<RemotePhoto>, local: seq<Photo>): seq<Photo> {
    Filter(local, (p: Photo) => !HasRemoteDigest(remote, p.digest))
  }

  /** `getDownloadList`. */
  method GetDownloadList(remote: seq<RemotePhoto>, local: seq<Photo>)
    returns (toDownload: seq<RemotePhoto>)
    ensures toDownload == DownloadList(remote, local)
  {
    toDownload := [];
    for i := 0 to |remote|
      invariant toDownload == DownloadList(remote[..i], local)
    {
      assert remote[..i + 1] == remote[..i] + [remote[i]];
      FilterSnoc(remote[..i], remote[i], (r: RemotePhoto) => !HasLocalDigest(local, r.digest));
      if HasLocalDigest(local, remote[i].digest) {
        continue;
      }
      toDownload := toDownload + [remote[i]];
    }
    assert remote[..|remote|] == remote;
  }

  /** `getDeleteList`. */
  method GetDeleteList(remote: seq<RemotePhoto>, local: seq<Photo>)
    returns (toDelete: seq<Photo>)
    ensures toDelete == DeleteList(remote, local)
  {
    toDelete := [];
    for i := 0 to |local|
      invariant toDelete == DeleteList(remote, local[..i])
    {
      assert local[..i + 1] == local[..i] + [local[i]];
      FilterSnoc(local[..i], local[i], (p: Photo) => !HasRemoteDigest(remote, p.digest));
      if HasRemoteDigest(remote, local[i].digest) {
        continue;
      }
      toDelete := toDelete + [local[i]];
    }
    assert local[..|local|] == local;
  }

  /** Exactly the remote entries whose digest is absent locally, every copy, in remote
      order. */
  lemma DownloadListExact(remote: seq<RemotePhoto>, local: seq<Photo>)
    ensures forall r :: r in DownloadList(remote, local) <==> r in remote && r.digest !in LocalDigests(local)
    ensures forall r :: multiset(DownloadList(remote, local))[r] ==
                        if r.digest in LocalDigests(local) then 0 else multiset(remote)[r]
    ensures IsSubsequence(DownloadList(remote, local), remote)
  {
    var keep := (r: RemotePhoto) => !HasLocalDigest(local, r.digest);
    forall d ensures HasLocalDigest(local, d) <==> d in LocalDigests(local) {
      if d in LocalDigests(local) {
        var p :| p in local && p.digest == d;
        var i :| 0 <= i < |local| && local[i] == p;
      }
    }
    forall r ensures r in DownloadList(remote, local) <==> r in remote && r.digest !in LocalDigests(local) {
      FilterMembership(remote, keep, r);
    }
    forall r ensures multiset(DownloadList(remote, local))[r] ==
      if r.digest in LocalDigests(local) then 0 else multiset(remote)[r]
    {
      FilterCount(remote, keep, r);
    }
    FilterIsSubsequence(remote, keep);
  }

  /** Exactly the local photos whose digest is absent remotely, every copy, in local
      order. */
  lemma DeleteListExact(remote: seq<RemotePhoto>, local: seq<Photo>)
    ensures forall p :: p in DeleteList(remote, local) <==> p in local && p.digest !in RemoteDigests(remote)
    ensures forall p :: multiset(DeleteList(remote, local))[p] ==
                        if p.digest in RemoteDigests(remote) then 0 else multiset(local)[p]
    ensures IsSubsequence(DeleteList(remote, local), local)
  {
    var keep := (p: Photo) => !HasRemoteDigest(remote, p.digest);
    forall d ensures HasRemoteDigest(remote, d) <==> d in RemoteDigests(remote) {
      if d in RemoteDigests(remote) {
        var r :| r in remote && r.digest == d;
        var i :| 0 <= i < |remote| && remote[i] == r;
      }
    }
    forall p ensures p in DeleteList(remote, local) <==> p in local && p.digest !in RemoteDigests(remote) {
      FilterMembership(local, keep, p);
    }
    forall p ensures multiset(DeleteList(remote, local))[p] ==
      if p.digest in RemoteDigests(remote) then 0 else multiset(local)[p]
    {
      FilterCount(local, keep, p);
    }
    FilterIsSubsequence(local, keep);
  }

  /** A local and a remote photo with the same digest are in neither list, whatever
      their names. */
  lemma SameDigestUntouched(remote: seq<RemotePhoto>, local: seq<Photo>, r: RemotePhoto, p: Photo)
    requires r in remote && p in local && r.digest == p.digest
    ensures r !in DownloadList(remote, local)
    ensures p !in DeleteList(remote, local)
  {
    DownloadListExact(remote, local);
    DeleteListExact(remote, local);
  }

  /** On converged state (same digest sets) there is nothing to download or delete. */
  lemma ConvergedNothingToDo(remote: seq<RemotePhoto>, local: seq<Photo>)
    requires RemoteDigests(remote) == LocalDigests(local)
    ensures DownloadList(remote, local) == []
    ensures DeleteList(remote, local) == []
  {
    DownloadListExact(remote, local);
    DeleteListExact(remote, local);
    forall r ensures multiset(DownloadList(remote, local))[r] == 0 {
      if r in remote {
        assert r.digest in RemoteDigests(remote);
      }
    }
    assert multiset(DownloadList(remote, local)) == multiset{};
    forall p ensures multiset(DeleteList(remote, local))[p] == 0 {
      if p in local {
        assert p.digest in LocalDigests(local);
      }
    }
    assert multiset(DeleteList(remote, local)) == multiset{};
  }

  /** The URL rewrite does not change which local photos are deleted, and the download
      list of the rewritten manifest is the rewritten download list. */
  lemma {:induction false} RewriteCommutesWithDiff(manifest: seq<RemotePhoto>, local: seq<Photo>)
    ensures DeleteList(RewriteUrls(manifest), local) == DeleteList(manifest, local)
    ensures DownloadList(RewriteUrls(manifest), local) == RewriteUrls(DownloadList(manifest, local))
  {
    var rewritten := RewriteUrls(manifest);
    forall d ensures HasRemoteDigest(rewritten, d) <==> HasRemoteDigest(manifest, d) {
      if HasRemoteDigest(manifest, d) {
        var i :| 0 <= i < |manifest| && manifest[i].digest == d;
        assert rewritten[i].digest == d;
      }
    }
    FilterSameKeep(local, (p: Photo) => !HasRemoteDigest(rewritten, p.digest),
                          (p: Photo) => !HasRemoteDigest(manifest, p.digest));
    DownloadListOfRewrite(manifest, local);
  }

  /** Two keep-tests that agree everywhere filter alike. */
  lemma {:induction false} FilterSameKeep<T>(s: seq<T>, k1: T -> bool, k2: T -> bool)
    requires forall x :: k1(x) == k2(x)
    ensures Filter(s, k1) == Filter(s, k2)
  {
    if s != [] {
      FilterSameKeep(s[1..], k1, k2);
    }
  }

  lemma {:induction false} DownloadListOfRewrite(manifest: seq<RemotePhoto>, local: seq<Photo>)
    ensures DownloadList(RewriteUrls(manifest), local) == RewriteUrls(DownloadList(manifest, local))
  {
    if manifest != [] {
      DownloadListOfRewrite(manifest[1..], local);
      assert RewriteUrls(manifest)[1..] == RewriteUrls(manifest[1..]);
      var head := RewriteUrls(manifest)[0];
      if HasLocalDigest(local, manifest[0].digest) {
        assert DownloadList(manifest, local) == DownloadList(manifest[1..], local);
      } else {
        assert DownloadList(manifest, local) == [manifest[0]] + DownloadList(manifest[1..], local);
        assert RewriteUrls(DownloadList(manifest, local))[1..] == RewriteUrls(DownloadList(manifest[1..], local));
      }
    }
  }

  // ---------------------------------------------------------------------------
  // Deleting (cleanupPhotos)
  // ---------------------------------------------------------------------------

  /** The paths among the first `n` photos that `File.delete()` removes: those that exist
      and that the system lets the app delete. */
  function Removed(fs: FileSystem, photos: seq<Photo>, n: nat, undeletable: set<string>): set<string>
    requires n <= |photos|
  {
    set i | 0 <= i < n && photos[i].filename in fs && photos[i].filename !in undeletable :: photos[i].filename
  }

  /** The effect of `cleanupPhotos`: the removable files are gone, and the result says
      whether any delete succeeded. */
  function Cleanup(fs: FileSystem, photos: seq<Photo>, undeletable: set<string>): (r: (FileSystem, bool))
    ensures forall path :: path in r.0 ==> path in fs && r.0[path] == fs[path]
    ensures r.1 <==> r.0 != fs
  {
    var gone := Removed(fs, photos, |photos|, undeletable);
    (fs - gone, gone != {})
  }

  /** `cleanupPhotos`: every photo is attempted, a failed delete does not stop the loop,
      and the result is true iff at least one delete succeeded. */
  method CleanupPhotos(fs: FileSystem, photos: seq<Photo>, undeletable: set<string>)
    returns (fs': FileSystem, photosChanged: bool)
    ensures (fs', photosChanged) == Cleanup(fs, photos, undeletable)
    ensures photosChanged <==> exists i :: 0 <= i < |photos| && photos[i].filename in fs && photos[i].filename !in undeletable
    ensures forall path :: path in fs' <==> path in fs && path !in Removed(fs, photos, |photos|, undeletable)
  {
    fs' := fs;
    photosChanged := false;
    for i := 0 to |photos|
      invariant fs' == fs - Removed(fs, photos, i, undeletable)
      invariant photosChanged <==> Removed(fs, photos, i, undeletable) != {}
    {
      var path := photos[i].filename;
      var deleted := path in fs' && path !in undeletable;
      if deleted {
        fs' := fs' - {path};
      }
      assert Removed(fs, photos, i + 1, undeletable) ==
        Removed(fs, photos, i, undeletable) + (if path in fs && path !in undeletable then {path} else {});
      if !deleted {
        // logged as an error; the loop goes on
      } else {
        photosChanged := true;
      }
    }
    if photosChanged {
      var p :| p in Removed(fs, photos, |photos|, undeletable);
    }
  }

  // ---------------------------------------------------------------------------
  // Downloading (downloadPhotos, saveFile)
  // ---------------------------------------------------------------------------

  /** What `photoService.download(url).body()` gives: an exception, or a response whose
      body is null (an unsuccessful status) or the payload. */
  datatype HttpOutcome = Threw | Response(body: Option<seq<Byte>>)

  /** `"${filesDir.path}/$filename"`. */
  function SavePath(filesDir: string, name: string): string {
    filesDir + "/" + name
  }

  /** The effect of `saveFile` on the file at `path`: nothing for a null body or a file
      that cannot be opened; otherwise the file is replaced by the body, or by the part
      of it written before the disk filled up. */
  function SaveEffect(fs: FileSystem, path: string, body: Option<seq<Byte>>, disk: Disk): (r: (FileSystem, bool))
    ensures r.1 <==> Saves(body, disk)
    ensures r.1 ==> path in r.0 && r.0[path] == body.value
    ensures forall p :: p != path ==> (p in r.0 <==> p in fs) && (p in fs ==> r.0[p] == fs[p])
  {
    match body
    case None => (fs, false)
    case Some(b) =>
      match disk
      case OpenFails => (fs, false)
      case Writable => (fs[path := b], true)
      case FullAfter(limit) =>
        if |b| <= limit then (fs[path := b], true) else (fs[path := b[..limit]], false)
  }

  /** `saveFile` returns true exactly when there is a body and all of it was written. */
  predicate Saves(body: Option<seq<Byte>>, disk: Disk) {
    body.Some? && (disk.Writable? || (disk.FullAfter? && |body.value| <= disk.limit))
  }

  /** The copy loop of `saveFile`: reads the body in chunks of at most 4096 bytes and
      writes each chunk, until the end of the body or the first write that throws. */
  method CopyStream(input: InputStream, output: FileOutputStream) returns (ok: bool)
    requires input.Valid() && input.pos == 0 && output.written == []
    modifies input, output
    ensures ok <==> output.capacity.None? || |input.data| <= output.capacity.value
    ensures ok ==> output.written == input.data
    ensures !ok ==> output.written == input.data[..output.capacity.value]
  {
    var data := input.data;
    var buffer := new Byte[4 * 1024];
    var read := input.Read(buffer);
    while read != -1
      invariant input.Valid() && input.data == data
      invariant output.capacity.Some? ==> |output.written| <= output.capacity.value
      invariant read == -1 ==> input.pos == |data| && output.written == data
      invariant read != -1 ==>
        && 0 < read <= buffer.Length
        && input.pos >= read
        && output.written == data[..input.pos - read]
        && buffer[..read] == data[input.pos - read..input.pos]
      decreases |data| - input.pos + (if read == -1 then 0 else 1)
    {
      ghost var before := output.written;
      ok := output.Write(buffer, 0, read);
      if !ok {
        var limit := output.capacity.value;
        assert buffer[0..limit - |before|] == data[input.pos - read..limit] by {
          assert buffer[0..limit - |before|] == buffer[..read][0..limit - |before|];
        }
        assert output.written == data[..limit];
        return false;
      }
      assert output.written == data[..input.pos] by {
        assert data[..input.pos] == data[..input.pos - read] + data[input.pos - read..input.pos];
      }
      read := input.Read(buffer);
      if read == -1 {
        assert data[..input.pos] == data;
      }
    }
    return true;
  }

  /** `saveFile(body, filename)`: a null body or a file that cannot be opened gives
      `false`; otherwise the body is copied into the file, and an exception during the
      copy is caught and reported as `false`. */
  method SaveFile(fs: FileSystem, filesDir: string, body: Option<seq<Byte>>, filename: string, disk: Disk)
    returns (fs': FileSystem, saved: bool)
    ensures (fs', saved) == SaveEffect(fs, SavePath(filesDir, filename), body, disk)
    ensures saved <==> Saves(body, disk)
    ensures saved ==> fs' == fs[SavePath(filesDir, filename) := body.value]
  {
    if body.None? {
      return fs, false;
    }
    var path := SavePath(filesDir, filename);
    if disk.OpenFails? {
      return fs, false;
    }
    var input := new InputStream(body.value);
    var output := new FileOutputStream(if disk.FullAfter? then Some(disk.limit) else None);
    saved := CopyStream(input, output);
    return fs[path := output.written], saved;
  }

  /** The effect of `downloadPhotos`: the photos are fetched and saved in order; an
      exception from the download call aborts the rest (files already saved stay), while
      a failed save does not. The flag says whether some save succeeded. */
  function DownloadAll(fs: FileSystem, filesDir: string, photos: seq<RemotePhoto>,
                       server: string -> HttpOutcome, disk: string -> Disk): (FileSystem, Result<bool>)
    decreases |photos|
  {
    if photos == [] then (fs, Ok(false))
    else
      match server(photos[0].url)
      case Threw => (fs, Err(Network))
      case Response(body) =>
        var path := SavePath(filesDir, photos[0].name);
        var (fs1, saved) := SaveEffect(fs, path, body, disk(path));
        var (fs2, rest) := DownloadAll(fs1, filesDir, photos[1..], server, disk);
        (fs2, if rest.Ok? then Ok(saved || rest.value) else rest)
  }

  /** `downloadPhotos`. */
  method DownloadPhotos(fs: FileSystem, filesDir: string, photos: seq<RemotePhoto>,
                        server: string -> HttpOutcome, disk: string -> Disk)
    returns (fs': FileSystem, r: Result<bool>)
    ensures (fs', r) == DownloadAll(fs, filesDir, photos, server, disk)
  {
    fs' := fs;
    var photosChanged := false;
    for i := 0 to |photos|
      invariant
        var (f, rest) := DownloadAll(fs', filesDir, photos[i..], server, disk);
        DownloadAll(fs, filesDir, photos, server, disk) ==
          (f, if rest.Ok? then Ok(photosChanged || rest.value) else rest)
    {
      assert photos[i..][1..] == photos[i + 1..];
      var responseBody := server(photos[i].url);
      if responseBody.Threw? {
        return fs', Err(Network);
      }
      var saved;
      fs', saved := SaveFile(fs', filesDir, responseBody.body, photos[i].name, disk(SavePath(filesDir, photos[i].name)));
      if saved {
        photosChanged := true;
      }
    }
    return fs', Ok(photosChanged);
  }

  /** The download step throws iff some fetch throws; otherwise it reports a change iff
      some save succeeded. */
  lemma {:induction false} DownloadAllResult(fs: FileSystem, filesDir: string, photos: seq<RemotePhoto>,
                                             server: string -> HttpOutcome, disk: string -> Disk)
    ensures DownloadAll(fs, filesDir, photos, server, disk).1 ==
      if exists i :: 0 <= i < |photos| && server(photos[i].url).Threw? then Err(Network)
      else Ok(exists i :: 0 <= i < |photos| && Saves(server(photos[i].url).body,
                                                     disk(SavePath(filesDir, photos[i].name))))
    decreases |photos|
  {
    if photos != [] {
      match server(photos[0].url)
      case Threw =>
      case Response(body) =>
        var path := SavePath(filesDir, photos[0].name);
        var (fs1, saved) := SaveEffect(fs, path, body, disk(path));
        DownloadAllResult(fs1, filesDir, photos[1..], server, disk);
        assert forall i :: 0 < i < |photos| ==> photos[i] == photos[1..][i - 1];
        assert forall i :: 0 <= i < |photos[1..]| ==> photos[1..][i] == photos[i + 1];
    }
  }

  /** A file no photo is saved to is left exactly as it was. */
  lemma {:induction false} DownloadAllFrame(fs: FileSystem, filesDir: string, photos: seq<RemotePhoto>,
                                            server: string -> HttpOutcome, disk: string -> Disk, path: string)
    requires forall i :: 0 <= i < |photos| ==> SavePath(filesDir, photos[i].name) != path
    ensures var fs' := DownloadAll(fs, filesDir, photos, server, disk).0;
      (path in fs' <==> path in fs) && (path in fs ==> fs'[path] == fs[path])
    decreases |photos|
  {
    if photos != [] {
      match server(photos[0].url)
      case Threw =>
      case Response(body) =>
        var p0 := SavePath(filesDir, photos[0].name);
        var (fs1, saved) := SaveEffect(fs, p0, body, disk(p0));
        assert forall i :: 0 <= i < |photos[1..]| ==> photos[1..][i] == photos[i + 1];
        DownloadAllFrame(fs1, filesDir, photos[1..], server, disk, path);
    }
  }

  /** Partial-failure isolation: a photo fetched and saved in full ends up on disk
      whatever happens to the photos around it, as long as no fetch up to it threw and no
      later photo is saved under the same name. */
  lemma {:induction false} DownloadAllIsolation(fs: FileSystem, filesDir: string, photos: seq<RemotePhoto>,
                                                server: string -> HttpOutcome, disk: string -> Disk, k: nat)
    requires k < |photos|
    requires forall j :: 0 <= j <= k ==> server(photos[j].url).Response?
    requires Saves(server(photos[k].url).body, disk(SavePath(filesDir, photos[k].name)))
    requires forall j :: k < j < |photos| ==> photos[j].name != photos[k].name
    ensures var fs' := DownloadAll(fs, filesDir, photos, server, disk).0;
      SavePath(filesDir, photos[k].name) in fs'
      && fs'[SavePath(filesDir, photos[k].name)] == server(photos[k].url).body.value
    decreases |photos|
  {
    var body := server(photos[0].url).body;
    var p0 := SavePath(filesDir, photos[0].name);
    var (fs1, saved) := SaveEffect(fs, p0, body, disk(p0));
    assert forall i :: 0 <= i < |photos[1..]| ==> photos[1..][i] == photos[i + 1];
    if k == 0 {
      forall i | 0 <= i < |photos[1..]| ensures SavePath(filesDir, photos[1..][i].name) != p0 {
        assert photos[1..][i].name != photos[0].name;
        assert SavePath(filesDir, photos[1..][i].name)[|filesDir| + 1..] == photos[1..][i].name;
      }
      DownloadAllFrame(fs1, filesDir, photos[1..], server, disk, p0);
    } else {
      DownloadAllIsolation(fs1, filesDir, photos[1..], server, disk, k - 1);
    }
  }

  // ---------------------------------------------------------------------------
  // doWork
  // ---------------------------------------------------------------------------

  /** The worker's `Result`. */
  datatype WorkResult = Success | Failure

  /** The reason text of the reload request, built from the two flags as `doWork`
      names them: `photosDeleted` holds the outcome of the downloads and
      `photosDownloaded` that of the deletions. */
  function ChangeReason(photosDeleted: bool, photosDownloaded: bool): (r: string)
    ensures StartsWith(r, "Photos changed ")
  {
    "Photos changed "
    + (if photosDeleted then "(deletions) " else "")
    + (if photosDownloaded then "(downloads) " else "")
  }

  /** The labels are swapped with respect to what happened: a pass in which only
      deletions succeeded reports "(downloads)", and one in which only downloads
      succeeded reports "(deletions)". */
  lemma ReasonLabelsSwapped()
    ensures var cleanupChanged, downloadChanged := true, false;
      ChangeReason(downloadChanged, cleanupChanged) == "Photos changed (downloads) "
    ensures var cleanupChanged, downloadChanged := false, true;
      ChangeReason(downloadChanged, cleanupChanged) == "Photos changed (deletions) "
  {
  }

  /** What one pass does: the new file system, the reload request it posts (if any) and
      the worker's result. */
  function SyncPass(manifest: Result<seq<RemotePhoto>>, filesDir: string, listing: seq<string>,
                    fs: FileSystem, sha1: seq<Byte> -> seq<Byte>, undeletable: set<string>,
                    server: string -> HttpOutcome, disk: string -> Disk)
    : (FileSystem, Option<Event>, WorkResult)
  {
    if manifest.Err? then (fs, None, Failure)
    else
      var remote := RewriteUrls(manifest.value);
      var inventory := Inventory(filesDir, listing, fs, sha1);
      if inventory.Err? then (fs, None, Failure)
      else
        var local := inventory.value;
        var (afterCleanup, photosDownloaded) := Cleanup(fs, DeleteList(remote, local), undeletable);
        var (afterDownload, downloads) := DownloadAll(afterCleanup, filesDir, DownloadList(remote, local), server, disk);
        if downloads.Err? then (afterDownload, None, Failure)
        else
          var photosDeleted := downloads.value;
          if photosDeleted || photosDownloaded
          then (afterDownload, Some(ReloadRequest(ChangeReason(photosDeleted, photosDownloaded))), Success)
          else (afterDownload, None, Success)
  }

  /** `doWork`: fetch, list, delete, download, then post a reload request if either step
      reported a change. An exception anywhere (manifest fetch, local hashing, a
      download call) ends the pass with `Failure` and no post. */
  method DoWork(manifest: Result<seq<RemotePhoto>>, filesDir: string, listing: seq<string>,
                fs: FileSystem, sha1: seq<Byte> -> seq<Byte>, undeletable: set<string>,
                server: string -> HttpOutcome, disk: string -> Disk, log: seq<Event>)
    returns (fs': FileSystem, log': seq<Event>, result: WorkResult)
    ensures var (f, posted, res) := SyncPass(manifest, filesDir, listing, fs, sha1, undeletable, server, disk);
      && fs' == f && result == res
      && log' == log + (if posted.Some? then [posted.value] else [])
  {
    fs', log' := fs, log;
    if manifest.Err? {
      return fs', log', Failure;
    }
    var remotePhotos := RewriteUrls(manifest.value);
    var localPhotos := GetPhotos(filesDir, listing, fs, sha1);
    if localPhotos.Err? {
      return fs', log', Failure;
    }
    var toDelete := GetDeleteList(remotePhotos, localPhotos.value);
    var photosDownloaded;
    fs', photosDownloaded := CleanupPhotos(fs', toDelete, undeletable);
    var toDownload := GetDownloadList(remotePhotos, localPhotos.value);
    var downloads;
    fs', downloads := DownloadPhotos(fs', filesDir, toDownload, server, disk);
    if downloads.Err? {
      return fs', log', Failure;
    }
    var photosDeleted := downloads.value;
    if photosDeleted || photosDownloaded {
      var reason := "Photos changed ";
      if photosDeleted {
        reason := reason + "(deletions) ";
      }
      if photosDownloaded {
        reason := reason + "(downloads) ";
      }
      assert reason == ChangeReason(photosDeleted, photosDownloaded);
      log' := log' + [ReloadRequest(reason)];
    }
    return fs', log', Success;
  }
}

/** Properties of a whole reconciliation pass. */
module SyncPassProperties {
  import opened Model
  import opened Streams
  import opened PhotoRepository
  import opened SyncWorker

  /** Some delete of the pass succeeds: a photo on the delete list exists and may be
      deleted. */
  predicate SomeDeleteSucceeds(fs: FileSystem, toDelete: seq<Photo>, undeletable: set<string>) {
    exists i :: 0 <= i < |toDelete| && toDelete[i].filename in fs && toDelete[i].filename !in undeletable
  }

  /** Some download of the pass is saved in full. */
  predicate SomeSaveSucceeds(filesDir: string, toDownload: seq<RemotePhoto>,
                             server: string -> HttpOutcome, disk: string -> Disk) {
    exists i :: 0 <= i < |toDownload| && server(toDownload[i].url).Response? &&
      Saves(server(toDownload[i].url).body, disk(SavePath(filesDir, toDownload[i].name)))
  }

  /** Some download call of the pass throws. */
  predicate SomeFetchThrows(toDownload: seq<RemotePhoto>, server: string -> HttpOutcome) {
    exists i :: 0 <= i < |toDownload| && server(toDownload[i].url).Threw?
  }

  lemma CleanupFlag(fs: FileSystem, photos: seq<Photo>, undeletable: set<string>)
    ensures Cleanup(fs, photos, undeletable).1 <==> SomeDeleteSucceeds(fs, photos, undeletable)
  {
    if SomeDeleteSucceeds(fs, photos, undeletable) {
      var i :| 0 <= i < |photos| && photos[i].filename in fs && photos[i].filename !in undeletable;
      assert photos[i].filename in Removed(fs, photos, |photos|, undeletable);
    }
  }

  /** The pass posts a reload request exactly when manifest, listing and every download
      call went through and at least one delete or one save succeeded; a failed pass
      posts nothing; the posted reason starts with "Photos changed ". */
  lemma PassSignalsIffChange(manifest: Result<seq<RemotePhoto>>, filesDir: string, listing: seq<string>,
                             fs: FileSystem, sha1: seq<Byte> -> seq<Byte>, undeletable: set<string>,
                             server: string -> HttpOutcome, disk: string -> Disk)
    requires manifest.Ok? && Inventory(filesDir, listing, fs, sha1).Ok?
    ensures var remote := RewriteUrls(manifest.value);
      var local := Inventory(filesDir, listing, fs, sha1).value;
      var (_, posted, result) := SyncPass(manifest, filesDir, listing, fs, sha1, undeletable, server, disk);
      && (result == Failure <==> SomeFetchThrows(DownloadList(remote, local), server))
      && (posted.Some? <==>
            && !SomeFetchThrows(DownloadList(remote, local), server)
            && (SomeDeleteSucceeds(fs, DeleteList(remote, local), undeletable)
                || SomeSaveSucceeds(filesDir, DownloadList(remote, local), server, disk)))
      && (posted.Some? ==> posted.value.ReloadRequest? && StartsWith(posted.value.reason, "Photos changed "))
  {
    var remote := RewriteUrls(manifest.value);
    var local := Inventory(filesDir, listing, fs, sha1).value;
    CleanupFlag(fs, DeleteList(remote, local), undeletable);
    var afterCleanup := Cleanup(fs, DeleteList(remote, local), undeletable).0;
    DownloadAllResult(afterCleanup, filesDir, DownloadList(remote, local), server, disk);
    var photosDownloaded := Cleanup(fs, DeleteList(remote, local), undeletable).1;
    var downloads := DownloadAll(afterCleanup, filesDir, DownloadList(remote, local), server, disk).1;
    if downloads.Ok? {
    }
  }

  /** A pass in which only deletions happen (something is deleted and nothing is to be
      downloaded) posts a reload request labelled "(downloads)". */
  lemma OnlyDeletionsReportDownloads(manifest: Result<seq<RemotePhoto>>, filesDir: string, listing: seq<string>,
                                     fs: FileSystem, sha1: seq<Byte> -> seq<Byte>, undeletable: set<string>,
                                     server: string -> HttpOutcome, disk: string -> Disk)
    requires manifest.Ok? && Inventory(filesDir, listing, fs, sha1).Ok?
    requires var remote := RewriteUrls(manifest.value);
      var local := Inventory(filesDir, listing, fs, sha1).value;
      && SomeDeleteSucceeds(fs, DeleteList(remote, local), undeletable)
      && DownloadList(remote, local) == []
    ensures SyncPass(manifest, filesDir, listing, fs, sha1, undeletable, server, disk).1
      == Some(ReloadRequest("Photos changed (downloads) "))
  {
    var remote := RewriteUrls(manifest.value);
    var local := Inventory(filesDir, listing, fs, sha1).value;
    CleanupFlag(fs, DeleteList(remote, local), undeletable);
    ReasonLabelsSwapped();
    var afterCleanup := Cleanup(fs, DeleteList(remote, local), undeletable).0;
    assert DownloadAll(afterCleanup, filesDir, [], server, disk).1 == Ok(false);
  }

  /** A pass in which only downloads happen (nothing is deleted, no download call throws
      and some save succeeds) posts a reload request labelled "(deletions)". */
  lemma OnlyDownloadsReportDeletions(manifest: Result<seq<RemotePhoto>>, filesDir: string, listing: seq<string>,
                                     fs: FileSystem, sha1: seq<Byte> -> seq<Byte>, undeletable: set<string>,
                                     server: string -> HttpOutcome, disk: string -> Disk)
    requires manifest.Ok? && Inventory(filesDir, listing, fs, sha1).Ok?
    requires var remote := RewriteUrls(manifest.value);
      var local := Inventory(filesDir, listing, fs, sha1).value;
      && !SomeDeleteSucceeds(fs, DeleteList(remote, local), undeletable)
      && !SomeFetchThrows(DownloadList(remote, local), server)
      && SomeSaveSucceeds(filesDir, DownloadList(remote, local), server, disk)
    ensures SyncPass(manifest, filesDir, listing, fs, sha1, undeletable, server, disk).1
      == Some(ReloadRequest("Photos changed (deletions) "))
  {
    var remote := RewriteUrls(manifest.value);
    var local := Inventory(filesDir, listing, fs, sha1).value;
    CleanupFlag(fs, DeleteList(remote, local), undeletable);
    ReasonLabelsSwapped();
    var afterCleanup := Cleanup(fs, DeleteList(remote, local), undeletable).0;
    DownloadAllResult(afterCleanup, filesDir, DownloadList(remote, local), server, disk);
  }

  /** Any failure — manifest fetch, local listing or a download call — posts nothing. */
  lemma FailedPassPostsNothing(manifest: Result<seq<RemotePhoto>>, filesDir: string, listing: seq<string>,
                               fs: FileSystem, sha1: seq<Byte> -> seq<Byte>, undeletable: set<string>,
                               server: string -> HttpOutcome, disk: string -> Disk)
    ensures var (fs', posted, result) := SyncPass(manifest, filesDir, listing, fs, sha1, undeletable, server, disk);
      && (result == Failure ==> posted == None)
      && (manifest.Err? || Inventory(filesDir, listing, fs, sha1).Err? ==> result == Failure && fs' == fs)
  {
  }

  /** Idempotence: when the local digests already equal the manifest's, the pass
      succeeds, changes no file and posts nothing. */
  lemma ConvergedPassIsNoOp(manifest: Result<seq<RemotePhoto>>, filesDir: string, listing: seq<string>,
                            fs: FileSystem, sha1: seq<Byte> -> seq<Byte>, undeletable: set<string>,
                            server: string -> HttpOutcome, disk: string -> Disk)
    requires manifest.Ok? && Inventory(filesDir, listing, fs, sha1).Ok?
    requires RemoteDigests(manifest.value) == LocalDigests(Inventory(filesDir, listing, fs, sha1).value)
    ensures SyncPass(manifest, filesDir, listing, fs, sha1, undeletable, server, disk) == (fs, None, Success)
  {
    var remote := RewriteUrls(manifest.value);
    var local := Inventory(filesDir, listing, fs, sha1).value;
    RewriteKeepsDigests(manifest.value);
    ConvergedNothingToDo(remote, local);
    assert Removed(fs, [], 0, undeletable) == {};
    assert fs - {} == fs;
    assert Cleanup(fs, [], undeletable) == (fs, false);
  }
}
