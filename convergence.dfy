/** Where the sync pass leads when the directory listing is the storage directory's real
    contents: under stated conditions one pass leaves the directory holding exactly the
    digests the manifest lists, and the pass after it changes nothing. A download that
    reuses the name of a photo that is kept overwrites that photo, which is why one of
    the conditions is that download names are free. */
module SyncConvergence {
  import opened Model
  import opened Sequences
  import opened Streams
  import opened PhotoRepository
  import opened SyncWorker
  import opened SyncPassProperties

  /** `context.fileList()` of the storage directory: exactly the names whose path under
      the directory is a file. */
  ghost predicate ListsDirectory(filesDir: string, listing: seq<string>, fs: FileSystem) {
    forall name :: name in listing <==> PhotoPath(filesDir, name) in fs
  }

  /** A path the inventory looks at: under the storage directory, ending in `jpg`. */
  predicate IsPhotoPath(filesDir: string, path: string) {
    StartsWith(path, filesDir + "/") && EndsWithJpg(path)
  }

  /** The digests of the photos stored in the directory. */
  function StoredDigests(filesDir: string, fs: FileSystem, sha1: seq<Byte> -> seq<Byte>): set<string> {
    set path | path in fs && IsPhotoPath(filesDir, path) :: FileDigest(fs[path], sha1)
  }

  /** A name's path is under the directory, the name is what follows the slash, and the
      path ends in `jpg` exactly when the name does (the slash keeps a short name from
      borrowing letters of the directory). */
  lemma PhotoPathParts(filesDir: string, name: string)
    ensures StartsWith(PhotoPath(filesDir, name), filesDir + "/")
    ensures PhotoPath(filesDir, name)[|filesDir| + 1..] == name
    ensures EndsWithJpg(PhotoPath(filesDir, name)) <==> EndsWithJpg(name)
  {
    var path := PhotoPath(filesDir, name);
    assert path[..|filesDir| + 1] == filesDir + "/";
    assert path[|filesDir| + 1..] == name;
    var n := |path|;
    if |name| >= 3 {
      assert path[n - 3] == name[|name| - 3];
      assert path[n - 2] == name[|name| - 2];
      assert path[n - 1] == name[|name| - 1];
    } else {
      assert path[|filesDir|] == '/';
    }
  }

  /** A path under the directory is the path of the name that follows the slash. */
  lemma PhotoPathOfSuffix(filesDir: string, path: string)
    requires StartsWith(path, filesDir + "/")
    ensures path == PhotoPath(filesDir, path[|filesDir| + 1..])
  {
    assert path == path[..|filesDir| + 1] + path[|filesDir| + 1..];
  }

  /** Over a listing that is the directory's contents, every path the inventory hashes
      is a `jpg` file of the directory. */
  lemma DirectoryPathsPresent(filesDir: string, listing: seq<string>, fs: FileSystem)
    requires ListsDirectory(filesDir, listing, fs)
    ensures forall i :: 0 <= i < |ImagePaths(filesDir, listing)| ==>
      ImagePaths(filesDir, listing)[i] in fs && IsPhotoPath(filesDir, ImagePaths(filesDir, listing)[i])
  {
    ImagePathsSpec(filesDir, listing);
    var names := KeptNames(listing);
    var paths := ImagePaths(filesDir, listing);
    forall i | 0 <= i < |paths| ensures paths[i] in fs && IsPhotoPath(filesDir, paths[i]) {
      assert names[i] in names;
      PhotoPathParts(filesDir, names[i]);
    }
  }

  /** When every path the inventory hashes is a file, the inventory holds one photo per
      path, in order, with the digest of its contents. */
  lemma InventoryEntries(filesDir: string, listing: seq<string>, fs: FileSystem,
                         sha1: seq<Byte> -> seq<Byte>)
    requires forall i :: 0 <= i < |ImagePaths(filesDir, listing)| ==> ImagePaths(filesDir, listing)[i] in fs
    ensures Inventory(filesDir, listing, fs, sha1).Ok?
    ensures var paths, local := ImagePaths(filesDir, listing), Inventory(filesDir, listing, fs, sha1).value;
      && |local| == |paths|
      && forall i :: 0 <= i < |local| ==> local[i] == Photo(paths[i], FileDigest(fs[paths[i]], sha1))
  {
  }

  /** The photos `local` are the directory's `jpg` files, each with the digest of its
      contents. */
  ghost predicate IsInventoryOf(local: seq<Photo>, filesDir: string, fs: FileSystem, sha1: seq<Byte> -> seq<Byte>) {
    forall p :: p in local <==>
      p.filename in fs && IsPhotoPath(filesDir, p.filename) && p.digest == FileDigest(fs[p.filename], sha1)
  }

  /** Over a listing that is the directory's contents, the inventory cannot fail and
      holds exactly the directory's `jpg` files with the digest of their contents. */
  lemma InventoryOfDirectory(filesDir: string, listing: seq<string>, fs: FileSystem,
                             sha1: seq<Byte> -> seq<Byte>)
    requires ListsDirectory(filesDir, listing, fs)
    ensures Inventory(filesDir, listing, fs, sha1).Ok?
    ensures IsInventoryOf(Inventory(filesDir, listing, fs, sha1).value, filesDir, fs, sha1)
  {
    DirectoryPathsPresent(filesDir, listing, fs);
    InventoryEntries(filesDir, listing, fs, sha1);
    ImagePathsSpec(filesDir, listing);
    var names := KeptNames(listing);
    var local := Inventory(filesDir, listing, fs, sha1).value;
    forall p: Photo | p.filename in fs && IsPhotoPath(filesDir, p.filename) && p.digest == FileDigest(fs[p.filename], sha1)
      ensures p in local
    {
      var name := p.filename[|filesDir| + 1..];
      PhotoPathOfSuffix(filesDir, p.filename);
      PhotoPathParts(filesDir, name);
      assert name in names;
      var i :| 0 <= i < |names| && names[i] == name;
      assert local[i] == p;
    }
  }

  /** Over a listing that is the directory's contents, the inventory's digests are the
      directory's stored digests. */
  lemma InventoryDigests(filesDir: string, listing: seq<string>, fs: FileSystem,
                         sha1: seq<Byte> -> seq<Byte>)
    requires ListsDirectory(filesDir, listing, fs)
    ensures Inventory(filesDir, listing, fs, sha1).Ok?
    ensures LocalDigests(Inventory(filesDir, listing, fs, sha1).value) == StoredDigests(filesDir, fs, sha1)
  {
    InventoryOfDirectory(filesDir, listing, fs, sha1);
    var local := Inventory(filesDir, listing, fs, sha1).value;
    forall d | d in StoredDigests(filesDir, fs, sha1) ensures d in LocalDigests(local) {
      var path :| path in fs && IsPhotoPath(filesDir, path) && FileDigest(fs[path], sha1) == d;
      assert Photo(path, d) in local;
    }
  }

  /** Every delete of the pass is allowed by the system. */
  predicate AllDeletesAllowed(toDelete: seq<Photo>, undeletable: set<string>) {
    forall i :: 0 <= i < |toDelete| ==> toDelete[i].filename !in undeletable
  }

  /** Every download of the pass answers with a body that has the digest the manifest
      lists, and the whole body is saved. */
  predicate AllDownloadsSaved(filesDir: string, toDownload: seq<RemotePhoto>, server: string -> HttpOutcome,
                              disk: string -> Disk, sha1: seq<Byte> -> seq<Byte>) {
    forall i :: 0 <= i < |toDownload| ==>
      && server(toDownload[i].url).Response?
      && Saves(server(toDownload[i].url).body, disk(SavePath(filesDir, toDownload[i].name)))
      && FileDigest(server(toDownload[i].url).body.value, sha1) == toDownload[i].digest
  }

  /** The downloads go to distinct `jpg` names whose paths no file occupies. */
  predicate FreshPhotoNames(filesDir: string, toDownload: seq<RemotePhoto>, fs: FileSystem) {
    && (forall i :: 0 <= i < |toDownload| ==>
          EndsWithJpg(toDownload[i].name) && SavePath(filesDir, toDownload[i].name) !in fs)
    && (forall i, j :: 0 <= i < j < |toDownload| ==> toDownload[i].name != toDownload[j].name)
  }

  /** A local photo is deleted exactly when the manifest does not list its digest. */
  lemma InDeleteList(remote: seq<RemotePhoto>, local: seq<Photo>, p: Photo)
    ensures p in DeleteList(remote, local) <==> p in local && p.digest !in RemoteDigests(remote)
  {
    DeleteListExact(remote, local);
  }

  /** A manifest entry is downloaded exactly when no local photo has its digest. */
  lemma InDownloadList(remote: seq<RemotePhoto>, local: seq<Photo>, r: RemotePhoto)
    ensures r in DownloadList(remote, local) <==> r in remote && r.digest !in LocalDigests(local)
  {
    DownloadListExact(remote, local);
  }

  /** A stale photo: a `jpg` file of the directory whose digest the manifest does not list. */
  predicate IsStale(filesDir: string, fs: FileSystem, sha1: seq<Byte> -> seq<Byte>, remote: seq<RemotePhoto>, path: string)
    requires path in fs
  {
    IsPhotoPath(filesDir, path) && FileDigest(fs[path], sha1) !in RemoteDigests(remote)
  }

  /** With every delete allowed, a file is removed exactly when it is stale. */
  lemma RemovedIffStale(filesDir: string, fs: FileSystem, sha1: seq<Byte> -> seq<Byte>, local: seq<Photo>,
                        remote: seq<RemotePhoto>, undeletable: set<string>, path: string)
    requires IsInventoryOf(local, filesDir, fs, sha1)
    requires AllDeletesAllowed(DeleteList(remote, local), undeletable)
    ensures var toDelete := DeleteList(remote, local);
      path in Removed(fs, toDelete, |toDelete|, undeletable) <==> path in fs && IsStale(filesDir, fs, sha1, remote, path)
  {
    var toDelete := DeleteList(remote, local);
    var gone := Removed(fs, toDelete, |toDelete|, undeletable);
    if path in gone {
      var i :| 0 <= i < |toDelete| && toDelete[i].filename == path && path in fs;
      InDeleteList(remote, local, toDelete[i]);
    }
    if path in fs && IsStale(filesDir, fs, sha1, remote, path) {
      var p := Photo(path, FileDigest(fs[path], sha1));
      InDeleteList(remote, local, p);
      var i :| 0 <= i < |toDelete| && toDelete[i] == p;
      assert toDelete[i].filename in gone;
    }
  }

  /** With every delete allowed, cleanup removes exactly the directory's photos whose
      digest the manifest no longer lists, and leaves every other file as it was. */
  lemma CleanupRemovesStale(filesDir: string, fs: FileSystem, sha1: seq<Byte> -> seq<Byte>, local: seq<Photo>,
                            remote: seq<RemotePhoto>, undeletable: set<string>)
    requires IsInventoryOf(local, filesDir, fs, sha1)
    requires AllDeletesAllowed(DeleteList(remote, local), undeletable)
    ensures var kept := Cleanup(fs, DeleteList(remote, local), undeletable).0;
      && (forall path :: path in kept <==> path in fs && !IsStale(filesDir, fs, sha1, remote, path))
      && (forall path :: path in kept ==> kept[path] == fs[path])
  {
    var kept := Cleanup(fs, DeleteList(remote, local), undeletable).0;
    forall path ensures path in kept <==> path in fs && !IsStale(filesDir, fs, sha1, remote, path) {
      RemovedIffStale(filesDir, fs, sha1, local, remote, undeletable, path);
    }
  }

  /** Downloads that all answer and save in full, to fresh `jpg` names, never throw,
      report a change when there is one, and add exactly their digests to the
      directory's stored digests. */
  lemma StoredAfterDownloads(fs: FileSystem, filesDir: string, photos: seq<RemotePhoto>,
                             server: string -> HttpOutcome, disk: string -> Disk,
                             sha1: seq<Byte> -> seq<Byte>)
    requires AllDownloadsSaved(filesDir, photos, server, disk, sha1)
    requires FreshPhotoNames(filesDir, photos, fs)
    ensures DownloadAll(fs, filesDir, photos, server, disk).1 == Ok(photos != [])
    ensures StoredDigests(filesDir, DownloadAll(fs, filesDir, photos, server, disk).0, sha1) ==
      StoredDigests(filesDir, fs, sha1) + RemoteDigests(photos)
  {
    DownloadAllResult(fs, filesDir, photos, server, disk);
    var fs' := DownloadAll(fs, filesDir, photos, server, disk).0;
    forall path | path in fs' && IsPhotoPath(filesDir, path)
      ensures FileDigest(fs'[path], sha1) in StoredDigests(filesDir, fs, sha1) + RemoteDigests(photos)
    {
      if k :| 0 <= k < |photos| && SavePath(filesDir, photos[k].name) == path {
        DownloadAllIsolation(fs, filesDir, photos, server, disk, k);
        assert photos[k] in photos;
      } else {
        DownloadAllFrame(fs, filesDir, photos, server, disk, path);
      }
    }
    forall path | path in fs && IsPhotoPath(filesDir, path)
      ensures path in fs' && FileDigest(fs'[path], sha1) == FileDigest(fs[path], sha1)
    {
      DownloadAllFrame(fs, filesDir, photos, server, disk, path);
    }
    forall d | d in RemoteDigests(photos) ensures d in StoredDigests(filesDir, fs', sha1) {
      var r :| r in photos && r.digest == d;
      var k :| 0 <= k < |photos| && photos[k] == r;
      DownloadAllIsolation(fs, filesDir, photos, server, disk, k);
      PhotoPathParts(filesDir, r.name);
      assert IsPhotoPath(filesDir, SavePath(filesDir, r.name));
    }
  }

  /** The conditions under which one pass brings the directory in line with the manifest:
      the listing succeeds, every delete is allowed, every download answers with a body
      of the listed digest that is saved in full, and the downloads go to distinct `jpg`
      names that no file left after cleanup occupies. */
  predicate PassCanComplete(manifest: seq<RemotePhoto>, filesDir: string, listing: seq<string>,
                            fs: FileSystem, sha1: seq<Byte> -> seq<Byte>, undeletable: set<string>,
                            server: string -> HttpOutcome, disk: string -> Disk)
  {
    match Inventory(filesDir, listing, fs, sha1)
    case Err(_) => false
    case Ok(local) =>
      var remote := RewriteUrls(manifest);
      && AllDeletesAllowed(DeleteList(remote, local), undeletable)
      && AllDownloadsSaved(filesDir, DownloadList(remote, local), server, disk, sha1)
      && FreshPhotoNames(filesDir, DownloadList(remote, local), Cleanup(fs, DeleteList(remote, local), undeletable).0)
  }

  /** `kept` is what cleanup leaves when it removes exactly the stale photos. */
  ghost predicate KeepsUnstale(filesDir: string, fs: FileSystem, sha1: seq<Byte> -> seq<Byte>,
                               remote: seq<RemotePhoto>, kept: FileSystem) {
    && (forall path :: path in kept <==> path in fs && !IsStale(filesDir, fs, sha1, remote, path))
    && (forall path :: path in kept ==> kept[path] == fs[path])
  }

  /** Once the stale photos are gone, every stored digest is listed by the manifest. */
  lemma KeptDigestsAreRemote(filesDir: string, fs: FileSystem, sha1: seq<Byte> -> seq<Byte>,
                             remote: seq<RemotePhoto>, kept: FileSystem)
    requires KeepsUnstale(filesDir, fs, sha1, remote, kept)
    ensures StoredDigests(filesDir, kept, sha1) <= RemoteDigests(remote)
  {
    forall d | d in StoredDigests(filesDir, kept, sha1) ensures d in RemoteDigests(remote) {
      var path :| path in kept && IsPhotoPath(filesDir, path) && FileDigest(kept[path], sha1) == d;
      assert !IsStale(filesDir, fs, sha1, remote, path);
    }
  }

  /** Every digest of the manifest is either stored after cleanup or downloaded. */
  lemma RemoteDigestsKeptOrDownloaded(filesDir: string, fs: FileSystem, sha1: seq<Byte> -> seq<Byte>,
                                      local: seq<Photo>, remote: seq<RemotePhoto>, kept: FileSystem)
    requires LocalDigests(local) == StoredDigests(filesDir, fs, sha1)
    requires KeepsUnstale(filesDir, fs, sha1, remote, kept)
    ensures RemoteDigests(remote) <= StoredDigests(filesDir, kept, sha1) + RemoteDigests(DownloadList(remote, local))
  {
    forall d | d in RemoteDigests(remote)
      ensures d in StoredDigests(filesDir, kept, sha1) + RemoteDigests(DownloadList(remote, local))
    {
      var r :| r in remote && r.digest == d;
      if d in LocalDigests(local) {
        var path :| path in fs && IsPhotoPath(filesDir, path) && FileDigest(fs[path], sha1) == d;
        assert !IsStale(filesDir, fs, sha1, remote, path);
        assert path in kept;
      } else {
        InDownloadList(remote, local, r);
      }
    }
  }

  /** When cleanup keeps exactly the files that are not stale photos, the digests it
      keeps together with the digests to download are exactly the manifest's. */
  lemma KeptAndDownloadedAreRemote(filesDir: string, fs: FileSystem, sha1: seq<Byte> -> seq<Byte>,
                                   local: seq<Photo>, remote: seq<RemotePhoto>, kept: FileSystem)
    requires LocalDigests(local) == StoredDigests(filesDir, fs, sha1)
    requires KeepsUnstale(filesDir, fs, sha1, remote, kept)
    ensures StoredDigests(filesDir, kept, sha1) + RemoteDigests(DownloadList(remote, local)) == RemoteDigests(remote)
  {
    KeptDigestsAreRemote(filesDir, fs, sha1, remote, kept);
    RemoteDigestsKeptOrDownloaded(filesDir, fs, sha1, local, remote, kept);
    forall d | d in RemoteDigests(DownloadList(remote, local)) ensures d in RemoteDigests(remote) {
      var r :| r in DownloadList(remote, local) && r.digest == d;
      InDownloadList(remote, local, r);
    }
  }

  /** Convergence: under those conditions the pass succeeds and afterwards the directory
      stores exactly the digests the manifest lists. */
  lemma PassConverges(manifest: Result<seq<RemotePhoto>>, filesDir: string, listing: seq<string>,
                      fs: FileSystem, sha1: seq<Byte> -> seq<Byte>, undeletable: set<string>,
                      server: string -> HttpOutcome, disk: string -> Disk)
    requires manifest.Ok? && ListsDirectory(filesDir, listing, fs)
    requires PassCanComplete(manifest.value, filesDir, listing, fs, sha1, undeletable, server, disk)
    ensures var (fs', _, result) := SyncPass(manifest, filesDir, listing, fs, sha1, undeletable, server, disk);
      result == Success && StoredDigests(filesDir, fs', sha1) == RemoteDigests(manifest.value)
  {
    var remote := RewriteUrls(manifest.value);
    var local := Inventory(filesDir, listing, fs, sha1).value;
    var kept := Cleanup(fs, DeleteList(remote, local), undeletable).0;
    InventoryDigests(filesDir, listing, fs, sha1);
    InventoryOfDirectory(filesDir, listing, fs, sha1);
    CleanupRemovesStale(filesDir, fs, sha1, local, remote, undeletable);
    KeptAndDownloadedAreRemote(filesDir, fs, sha1, local, remote, kept);
    StoredAfterDownloads(kept, filesDir, DownloadList(remote, local), server, disk, sha1);
    RewriteKeepsDigests(manifest.value);
  }

  /** Two-pass idempotence: after a pass that met the conditions, the next pass over the
      directory's new listing succeeds, changes no file and posts nothing, whatever the
      server and the disk would do. */
  lemma ConvergedDirectoryIsStable(manifest: Result<seq<RemotePhoto>>, filesDir: string, listing: seq<string>,
                                   fs: FileSystem, sha1: seq<Byte> -> seq<Byte>, undeletable: set<string>,
                                   server: string -> HttpOutcome, disk: string -> Disk,
                                   listing': seq<string>, undeletable': set<string>,
                                   server': string -> HttpOutcome, disk': string -> Disk)
    requires manifest.Ok? && ListsDirectory(filesDir, listing, fs)
    requires PassCanComplete(manifest.value, filesDir, listing, fs, sha1, undeletable, server, disk)
    requires ListsDirectory(filesDir, listing', SyncPass(manifest, filesDir, listing, fs, sha1, undeletable, server, disk).0)
    ensures var fs' := SyncPass(manifest, filesDir, listing, fs, sha1, undeletable, server, disk).0;
      SyncPass(manifest, filesDir, listing', fs', sha1, undeletable', server', disk') == (fs', None, Success)
  {
    var fs' := SyncPass(manifest, filesDir, listing, fs, sha1, undeletable, server, disk).0;
    PassConverges(manifest, filesDir, listing, fs, sha1, undeletable, server, disk);
    InventoryDigests(filesDir, listing', fs', sha1);
    ConvergedPassIsNoOp(manifest, filesDir, listing', fs', sha1, undeletable', server', disk');
  }

  // ---------------------------------------------------------------------------
  // A download that overwrites a kept photo
  // ---------------------------------------------------------------------------

  /** The digest function of the example below: the identity. */
  function Identity(b: seq<Byte>): seq<Byte> {
    b
  }

  /** The example's directory: `x.jpg` holding [2]. */
  const ExampleFiles: FileSystem := map["/d/x.jpg" := [2]]

  /** The example's manifest: `x.jpg` with the digest of [3], `y.jpg` with that of [2]. */
  const ExampleManifest: seq<RemotePhoto> :=
    [RemotePhoto("x.jpg", "u1", HexEncode([3])), RemotePhoto("y.jpg", "u2", HexEncode([2]))]

  lemma ExampleListing()
    ensures ListsDirectory("/d", ["x.jpg"], ExampleFiles)
  {
    assert PhotoPath("/d", "x.jpg") == "/d/x.jpg";
    forall name ensures name in ["x.jpg"] <==> PhotoPath("/d", name) in ExampleFiles {
      if PhotoPath("/d", name) in ExampleFiles {
        PhotoPathParts("/d", name);
        assert "/d/x.jpg"[3..] == "x.jpg";
      }
    }
  }

  /** The example's two digests differ. */
  lemma ExampleDigestsDiffer()
    ensures HexEncode([3]) != HexEncode([2])
  {
    if HexEncode([3]) == HexEncode([2]) {
      HexEncodeInjective([3], [2]);
    }
  }

  /** The example's inventory: the one photo with the digest of [2]. */
  const ExampleLocal: seq<Photo> := [Photo("/d/x.jpg", HexEncode([2]))]

  lemma ExampleInventory()
    ensures Inventory("/d", ["x.jpg"], ExampleFiles, Identity) == Ok(ExampleLocal)
  {
    var listing := ["x.jpg"];
    assert EndsWithJpg("x.jpg");
    assert listing[1..] == [];
    assert Filter(listing, EndsWithJpg) == listing;
    assert SortNames(listing[1..]) == [];
    assert SortNames(listing) == listing;
    assert PhotoPath("/d", "x.jpg") == "/d/x.jpg";
    assert ImagePaths("/d", listing) == ["/d/x.jpg"];
    assert FileDigest(ExampleFiles["/d/x.jpg"], Identity) == HexEncode([2]);
    var inv := Inventory("/d", listing, ExampleFiles, Identity);
    assert inv.Ok? && |inv.value| == 1 && inv.value[0] == ExampleLocal[0];
    assert inv.value == ExampleLocal;
  }

  /** In the example nothing is stale: the local photo's digest is `y.jpg`'s. */
  lemma ExampleDeletes()
    ensures DeleteList(RewriteUrls(ExampleManifest), ExampleLocal) == []
  {
    var remote := RewriteUrls(ExampleManifest);
    assert HasRemoteDigest(remote, HexEncode([2])) by {
      assert remote[1].digest == HexEncode([2]);
    }
    assert ExampleLocal[1..] == [];
    assert DeleteList(remote, ExampleLocal) == [] + DeleteList(remote, ExampleLocal[1..]);
  }

  /** In the example only `x.jpg` is missing: its digest is not local. */
  lemma ExampleDownloads()
    ensures var remote := RewriteUrls(ExampleManifest);
      && DownloadList(remote, ExampleLocal) == [remote[0]]
      && remote[0].name == "x.jpg"
  {
    var remote := RewriteUrls(ExampleManifest);
    assert remote[0].digest == HexEncode([3]) && remote[1].digest == HexEncode([2]);
    ExampleDigestsDiffer();
    assert !HasLocalDigest(ExampleLocal, HexEncode([3]));
    assert HasLocalDigest(ExampleLocal, HexEncode([2])) by {
      assert ExampleLocal[0].digest == HexEncode([2]);
    }
    assert DownloadList(remote[1..][1..], ExampleLocal) == [] by {
      assert remote[1..][1..] == [];
    }
    assert DownloadList(remote[1..], ExampleLocal) == [] + DownloadList(remote[1..][1..], ExampleLocal);
    assert DownloadList(remote, ExampleLocal) == [remote[0]] + DownloadList(remote[1..], ExampleLocal);
  }

  /** The example's server: every download answers with the bytes [3]. */
  function ExampleServer(url: string): HttpOutcome {
    Response(Some([3]))
  }

  /** The example's disk: every file can be written in full. */
  function ExampleDisk(path: string): Disk {
    Writable
  }

  /** The example's pass: `x.jpg` is downloaded over the kept file and reported. */
  lemma ExamplePass()
    ensures SyncPass(Ok(ExampleManifest), "/d", ["x.jpg"], ExampleFiles, Identity, {}, ExampleServer, ExampleDisk)
      == (map["/d/x.jpg" := [3]], Some(ReloadRequest(ChangeReason(true, false))), Success)
  {
    ExampleInventory();
    ExampleDeletes();
    ExampleDownloads();
    var remote := RewriteUrls(ExampleManifest);
    assert Removed(ExampleFiles, [], 0, {}) == {};
    assert Cleanup(ExampleFiles, [], {}).0 == ExampleFiles;
    assert SavePath("/d", "x.jpg") == "/d/x.jpg";
    assert DownloadAll(ExampleFiles, "/d", [remote[0]], ExampleServer, ExampleDisk) == (map["/d/x.jpg" := [3]], Ok(true)) by {
      assert [remote[0]][1..] == [];
      assert SavePath("/d", remote[0].name) == "/d/x.jpg";
      assert ExampleFiles["/d/x.jpg" := [3]] == map["/d/x.jpg" := [3]];
      assert SaveEffect(ExampleFiles, "/d/x.jpg", Some([3]), Writable) == (map["/d/x.jpg" := [3]], true);
    }
  }

  /** A download whose name is taken by a photo that is kept overwrites that photo. In
      the example the local photo matches `y.jpg` and is kept, `x.jpg` is downloaded over
      it, and the pass succeeds with the directory holding [3] only: the digest of [2],
      which the manifest still lists, is gone until the next pass. */
  lemma KeptPhotoOverwritten()
    ensures var (fs', posted, result) :=
        SyncPass(Ok(ExampleManifest), "/d", ["x.jpg"], ExampleFiles, Identity, {}, ExampleServer, ExampleDisk);
      && ListsDirectory("/d", ["x.jpg"], ExampleFiles)
      && fs' == map["/d/x.jpg" := [3]]
      && posted == Some(ReloadRequest(ChangeReason(true, false)))
      && result == Success
      && StoredDigests("/d", fs', Identity) != RemoteDigests(ExampleManifest)
  {
    ExampleListing();
    ExamplePass();
    ExampleDigestsDiffer();
    var fs' := map["/d/x.jpg" := [3]];
    assert StoredDigests("/d", fs', Identity) == {HexEncode([3])} by {
      PhotoPathParts("/d", "x.jpg");
    }
    assert HexEncode([2]) in RemoteDigests(ExampleManifest) by {
      assert ExampleManifest[1] in ExampleManifest;
    }
  }
}
