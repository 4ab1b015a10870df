/**
 scripts/archive_checkpoint_history.py: checkpoints are packed into one archive, the archive is
 read back and compared, published by renaming, and only then are the originals removed, each
 after one more comparison. A stop between any two changes of the disk must lose nothing.
 */
module ArchiveHistory {
  import opened Options

  type Bytes = seq<int>

  /** What reading an archive back yields; an unreadable one yields nothing. */
  type Members = map<string, Bytes>

  /** The disk as a reader would find it after a stop. */
  datatype Snapshot = Snapshot(files: map<string, Bytes>, dest: Option<Members>)

  datatype Row = Row(patchDigest: int, patchBytes: nat, gzipDigest: int)

  datatype Outcome = Refused | Failed | Verified(count: nat)

  /** `path.name[:-3]`. */
  function PatchName(path: string): string {
    if |path| < 3 then "" else path[..|path| - 3]
  }

  predicate IsCheckpoint(path: string) {
    |path| >= 9 && path[|path| - 9..] == ".patch.gz"
  }

  predicate DistinctPaths(paths: seq<string>) {
    forall i, j :: 0 <= i < j < |paths| ==> paths[i] != paths[j]
  }

  /** Checkpoints with different names have different patch names, none of them the manifest's. */
  lemma PatchNamesDiffer(p: string, q: string)
    requires IsCheckpoint(p) && IsCheckpoint(q)
    ensures PatchName(p) == PatchName(q) <==> p == q
    ensures PatchName(p) != "MANIFEST.json"
  {
    assert p == p[..|p| - 9] + ".patch.gz" && q == q[..|q| - 9] + ".patch.gz";
    assert PatchName(p) == p[..|p| - 9] + ".patch" && PatchName(q) == q[..|q| - 9] + ".patch";
    if PatchName(p) == PatchName(q) {
      assert PatchName(p)[..|p| - 9] == p[..|p| - 9];
      assert PatchName(q)[..|q| - 9] == q[..|q| - 9];
    }
    assert PatchName(p)[|p| - 9..] == ".patch";
    assert PatchName(p)[|PatchName(p)| - 1] == 'h';
  }

  ghost predicate Injective(digest: Bytes -> int) {
    forall a, b :: digest(a) == digest(b) ==> a == b
  }

  // ---- safety of one state of the disk ----

  /** The checkpoint's patch is in the published archive. */
  predicate Archived(gunzip: Bytes -> Option<Bytes>, dest: Option<Members>, path: string, packed: Bytes) {
    && dest.Some? && gunzip(packed).Some?
    && PatchName(path) in dest.value && dest.value[PatchName(path)] == gunzip(packed).value
  }

  /** Every selected checkpoint is where it was, unchanged, or in the archive. */
  predicate Kept(gunzip: Bytes -> Option<Bytes>, paths: seq<string>, original: map<string, Bytes>, s: Snapshot) {
    forall i :: 0 <= i < |paths| && paths[i] in original ==>
      || (paths[i] in s.files && s.files[paths[i]] == original[paths[i]])
      || Archived(gunzip, s.dest, paths[i], original[paths[i]])
  }

  /** Whether a manifest row describes the given packed file. */
  predicate RowOf(gunzip: Bytes -> Option<Bytes>, digest: Bytes -> int, row: Row, packed: Bytes) {
    && gunzip(packed).Some?
    && row == Row(digest(gunzip(packed).value), |gunzip(packed).value|, digest(packed))
  }

  ghost predicate Described(gunzip: Bytes -> Option<Bytes>, digest: Bytes -> int, paths: seq<string>, n: nat,
                            files: map<string, Bytes>, manifest: map<string, Row>)
    requires n <= |paths|
  {
    && (forall i :: 0 <= i < n ==> paths[i] in files && PatchName(paths[i]) in manifest && RowOf(gunzip, digest, manifest[PatchName(paths[i])], files[paths[i]]))
    && (forall name :: name in manifest ==> exists i :: 0 <= i < n && PatchName(paths[i]) == name)
  }

  /** The read-back comparison: the same names, and for each the same length and digest. */
  predicate Matches(digest: Bytes -> int, manifest: map<string, Row>, archive: Members) {
    && archive.Keys == manifest.Keys + {"MANIFEST.json"}
    && (forall name :: name in manifest ==>
          name in archive && |archive[name]| == manifest[name].patchBytes && digest(archive[name]) == manifest[name].patchDigest)
  }

  /** An archive that passes the comparison holds every checkpoint read. */
  lemma MatchingHolds(gunzip: Bytes -> Option<Bytes>, digest: Bytes -> int, paths: seq<string>, files: map<string, Bytes>,
                      manifest: map<string, Row>, archive: Members)
    requires Injective(digest) && Described(gunzip, digest, paths, |paths|, files, manifest) && Matches(digest, manifest, archive)
    ensures forall i :: 0 <= i < |paths| ==> Archived(gunzip, Some(archive), paths[i], files[paths[i]])
  {
    forall i | 0 <= i < |paths|
      ensures Archived(gunzip, Some(archive), paths[i], files[paths[i]])
    {
      var name := PatchName(paths[i]);
      assert digest(archive[name]) == digest(gunzip(files[paths[i]]).value);
    }
  }

  // ---- the disk and the program ----

  class Disk {
    var files: map<string, Bytes>
    var temporary: Option<Members>
    var dest: Option<Members>
    /** Every state the disk has been in, and every file the program removed with its content at that moment. */
    ghost var history: seq<Snapshot>
    ghost var removed: seq<(string, Bytes)>

    constructor (contents: map<string, Bytes>, archive: Option<Members>)
      ensures files == contents && dest == archive && history == [Snapshot(contents, archive)] && removed == []
    {
      files, temporary, dest := contents, None, archive;
      history, removed := [Snapshot(contents, archive)], [];
    }

    /** The temporary archive, as reading it back will show it. */
    method WriteTemporary(members: Option<Members>)
      modifies this
      ensures temporary == members && files == old(files) && dest == old(dest) && removed == old(removed)
      ensures history == old(history) + [Snapshot(files, dest)]
    {
      temporary := members;
      history := history + [Snapshot(files, dest)];
    }

    /** `os.replace(temporary, dest)`. */
    method Publish()
      modifies this
      ensures dest == old(temporary) && temporary == None && files == old(files) && removed == old(removed)
      ensures history == old(history) + [Snapshot(files, dest)]
    {
      dest, temporary := temporary, None;
      history := history + [Snapshot(files, dest)];
    }

    method Unlink(path: string)
      requires path in files
      modifies this
      ensures files == old(files) - {path} && dest == old(dest) && temporary == old(temporary)
      ensures removed == old(removed) + [(path, old(files)[path])]
      ensures history == old(history) + [Snapshot(files, dest)]
    {
      removed := removed + [(path, files[path])];
      files := files - {path};
      history := history + [Snapshot(files, dest)];
    }

    /** Somebody else changes the directory in spite of the lock. */
    method Meddle(contents: map<string, Bytes>)
      modifies this
      ensures files == contents && dest == old(dest) && temporary == old(temporary) && removed == old(removed)
      ensures history == old(history) + [Snapshot(files, dest)]
    {
      files := contents;
      history := history + [Snapshot(files, dest)];
    }
  }

  lemma DescribedNone(gunzip: Bytes -> Option<Bytes>, digest: Bytes -> int, paths: seq<string>, files: map<string, Bytes>)
    ensures Described(gunzip, digest, paths, 0, files, map[])
  {
  }

  lemma DescribeStep(gunzip: Bytes -> Option<Bytes>, digest: Bytes -> int, paths: seq<string>, n: nat,
                     files: map<string, Bytes>, manifest: map<string, Row>)
    requires n < |paths| && DistinctPaths(paths) && (forall i :: 0 <= i < |paths| ==> IsCheckpoint(paths[i]) && paths[i] in files)
    requires Described(gunzip, digest, paths, n, files, manifest) && gunzip(files[paths[n]]).Some?
    ensures var data := gunzip(files[paths[n]]).value;
            Described(gunzip, digest, paths, n + 1, files, manifest[PatchName(paths[n]) := Row(digest(data), |data|, digest(files[paths[n]]))])
  {
    hide IsCheckpoint, PatchName;
    forall k | 0 <= k < n
      ensures PatchName(paths[k]) != PatchName(paths[n])
    {
      PatchNamesDiffer(paths[k], paths[n]);
    }
  }

  /** Every listed file is there and decompresses. */
  predicate AllUnpack(gunzip: Bytes -> Option<Bytes>, paths: seq<string>, files: map<string, Bytes>) {
    forall i :: 0 <= i < |paths| ==> paths[i] in files && gunzip(files[paths[i]]).Some?
  }

  /** The manifest of the first `n` files. */
  function ManifestOf(gunzip: Bytes -> Option<Bytes>, digest: Bytes -> int, paths: seq<string>, n: nat, files: map<string, Bytes>): map<string, Row>
    requires n <= |paths| && forall i :: 0 <= i < n ==> paths[i] in files && gunzip(files[paths[i]]).Some?
  {
    if n == 0 then map[]
    else
      var packed := files[paths[n - 1]];
      var data := gunzip(packed).value;
      ManifestOf(gunzip, digest, paths, n - 1, files)[PatchName(paths[n - 1]) := Row(digest(data), |data|, digest(packed))]
  }

  /** The manifest loop: read, decompress, describe. Nothing is written to the directory but the temporary file. */
  method Describe(disk: Disk, gunzip: Bytes -> Option<Bytes>, digest: Bytes -> int, paths: seq<string>)
    returns (manifest: Option<map<string, Row>>)
    requires DistinctPaths(paths) && (forall i :: 0 <= i < |paths| ==> IsCheckpoint(paths[i]) && paths[i] in disk.files)
    ensures manifest.Some? ==> Described(gunzip, digest, paths, |paths|, disk.files, manifest.value)
    ensures manifest.Some? <==> AllUnpack(gunzip, paths, disk.files)
    ensures manifest.Some? ==> manifest.value == ManifestOf(gunzip, digest, paths, |paths|, disk.files)
  {
    hide Described, IsCheckpoint, PatchName;
    var rows: map<string, Row> := map[];
    DescribedNone(gunzip, digest, paths, disk.files);
    for i := 0 to |paths|
      invariant Described(gunzip, digest, paths, i, disk.files, rows)
      invariant forall k :: 0 <= k < i ==> gunzip(disk.files[paths[k]]).Some?
      invariant rows == ManifestOf(gunzip, digest, paths, i, disk.files)
    {
      var packed := disk.files[paths[i]];
      var data := gunzip(packed);
      if data.None? {
        return None;
      }
      DescribeStep(gunzip, digest, paths, i, disk.files, rows);
      rows := rows[PatchName(paths[i]) := Row(digest(data.value), |data.value|, digest(packed))];
    }
    manifest := Some(rows);
  }

  /** The listed checkpoints numbered up to `through`. */
  function Selected(listing: seq<string>, number: string -> Option<nat>, through: nat): seq<string> {
    if listing == [] then []
    else
      var n := |listing| - 1;
      var m := number(listing[n]);
      Selected(listing[..n], number, through) + if m.Some? && m.value <= through then [listing[n]] else []
  }

  predicate Listing(listing: seq<string>, files: map<string, Bytes>) {
    DistinctPaths(listing) && forall i :: 0 <= i < |listing| ==> IsCheckpoint(listing[i]) && listing[i] in files
  }

  lemma {:induction false} SelectedListing(listing: seq<string>, number: string -> Option<nat>, through: nat, files: map<string, Bytes>)
    requires Listing(listing, files)
    ensures Listing(Selected(listing, number, through), files)
    ensures forall p :: p in Selected(listing, number, through) <==> p in listing && number(p).Some? && number(p).value <= through
  {
    hide IsCheckpoint;
    if listing != [] {
      var n := |listing| - 1;
      var front := listing[..n];
      assert listing == front + [listing[n]];
      assert forall i :: 0 <= i < n ==> front[i] == listing[i];
      SelectedListing(front, number, through, files);
      var sel := Selected(front, number, through);
      assert listing[n] !in front;
      assert forall i :: 0 <= i < |sel| ==> sel[i] in front;
    }
  }

  method Select(listing: seq<string>, number: string -> Option<nat>, through: nat) returns (paths: seq<string>)
    ensures paths == Selected(listing, number, through)
  {
    paths := [];
    for i := 0 to |listing|
      invariant paths == Selected(listing[..i], number, through)
    {
      assert listing[..i + 1][..i] == listing[..i];
      var m := number(listing[i]);
      if m.Some? && m.value <= through {
        paths := paths + [listing[i]];
      }
    }
    assert listing[..|listing|] == listing;
  }

  /** Nothing lost in any state from the `from`-th on. */
  ghost predicate KeptSince(gunzip: Bytes -> Option<Bytes>, paths: seq<string>, original: map<string, Bytes>, history: seq<Snapshot>, from: nat) {
    forall k :: from <= k < |history| ==> Kept(gunzip, paths, original, history[k])
  }

  /** Nothing removed from the `from`-th removal on that the archive does not hold. */
  ghost predicate RemovedArchived(gunzip: Bytes -> Option<Bytes>, dest: Option<Members>, removed: seq<(string, Bytes)>, from: nat) {
    forall k :: from <= k < |removed| ==> Archived(gunzip, dest, removed[k].0, removed[k].1)
  }

  ghost predicate AllArchived(gunzip: Bytes -> Option<Bytes>, dest: Option<Members>, paths: seq<string>, original: map<string, Bytes>) {
    forall i :: 0 <= i < |paths| ==> paths[i] in original && Archived(gunzip, dest, paths[i], original[paths[i]])
  }

  lemma ArchivedIsKept(gunzip: Bytes -> Option<Bytes>, dest: Option<Members>, paths: seq<string>, original: map<string, Bytes>, files: map<string, Bytes>)
    requires AllArchived(gunzip, dest, paths, original)
    ensures Kept(gunzip, paths, original, Snapshot(files, dest))
  {
  }

  lemma UnchangedIsKept(gunzip: Bytes -> Option<Bytes>, paths: seq<string>, original: map<string, Bytes>, dest: Option<Members>)
    ensures Kept(gunzip, paths, original, Snapshot(original, dest))
  {
  }

  lemma KeptPush(gunzip: Bytes -> Option<Bytes>, paths: seq<string>, original: map<string, Bytes>, history: seq<Snapshot>, from: nat, s: Snapshot)
    requires KeptSince(gunzip, paths, original, history, from) && Kept(gunzip, paths, original, s)
    ensures KeptSince(gunzip, paths, original, history + [s], from)
  {
    hide Kept;
  }

  /** A packed file with the recorded digest is the file that was archived. */
  lemma SamePacked(gunzip: Bytes -> Option<Bytes>, digest: Bytes -> int, paths: seq<string>, original: map<string, Bytes>,
                   manifest: map<string, Row>, dest: Option<Members>, i: nat, packed: Bytes)
    requires Injective(digest) && i < |paths| && AllArchived(gunzip, dest, paths, original)
    requires Described(gunzip, digest, paths, |paths|, original, manifest)
    requires digest(packed) == manifest[PatchName(paths[i])].gzipDigest
    ensures Archived(gunzip, dest, paths[i], packed)
  {
    assert digest(packed) == digest(original[paths[i]]);
  }

  /** The directory as the removal loop finds it when it compares file `i`. */
  function DirAt(meddle: (nat, map<string, Bytes>) -> map<string, Bytes>, files: map<string, Bytes>, paths: seq<string>, i: nat): map<string, Bytes>
    requires i < |paths|
  {
    meddle(i, LeftBy(meddle, files, paths, i))
  }

  /** The directory as the removal of the first `i` files leaves it. */
  function LeftBy(meddle: (nat, map<string, Bytes>) -> map<string, Bytes>, files: map<string, Bytes>, paths: seq<string>, i: nat): map<string, Bytes>
    requires i <= |paths|
  {
    if i == 0 then files else meddle(i - 1, LeftBy(meddle, files, paths, i - 1)) - {paths[i - 1]}
  }

  /** The first `n` files are found with the digests they were archived with. */
  ghost predicate Unharmed(meddle: (nat, map<string, Bytes>) -> map<string, Bytes>, digest: Bytes -> int, files: map<string, Bytes>,
                           paths: seq<string>, n: nat, original: map<string, Bytes>)
    requires n <= |paths|
  {
    forall i :: 0 <= i < n ==> FoundAgain(meddle, digest, files, paths, i, original)
  }

  ghost predicate FoundAgain(meddle: (nat, map<string, Bytes>) -> map<string, Bytes>, digest: Bytes -> int, files: map<string, Bytes>,
                             paths: seq<string>, i: nat, original: map<string, Bytes>)
    requires i < |paths|
  {
    var dir := DirAt(meddle, files, paths, i);
    paths[i] in original && paths[i] in dir && digest(dir[paths[i]]) == digest(original[paths[i]])
  }

  lemma FoundAgainIs(meddle: (nat, map<string, Bytes>) -> map<string, Bytes>, digest: Bytes -> int, files: map<string, Bytes>,
                     paths: seq<string>, i: nat, original: map<string, Bytes>)
    requires i < |paths| && paths[i] in original
    ensures var dir := meddle(i, LeftBy(meddle, files, paths, i));
            FoundAgain(meddle, digest, files, paths, i, original) <==> paths[i] in dir && digest(dir[paths[i]]) == digest(original[paths[i]])
    ensures DirAt(meddle, files, paths, i) == meddle(i, LeftBy(meddle, files, paths, i))
  {
  }

  lemma UnharmedSteps(meddle: (nat, map<string, Bytes>) -> map<string, Bytes>, digest: Bytes -> int, files: map<string, Bytes>,
                      paths: seq<string>, i: nat, original: map<string, Bytes>)
    requires i <= |paths|
    ensures Unharmed(meddle, digest, files, paths, 0, original) && LeftBy(meddle, files, paths, 0) == files
    ensures i < |paths| && Unharmed(meddle, digest, files, paths, i, original) && FoundAgain(meddle, digest, files, paths, i, original) ==>
              Unharmed(meddle, digest, files, paths, i + 1, original)
    ensures i < |paths| && !FoundAgain(meddle, digest, files, paths, i, original) ==>
              !Unharmed(meddle, digest, files, paths, |paths|, original)
    ensures i < |paths| ==> LeftBy(meddle, files, paths, i + 1) == DirAt(meddle, files, paths, i) - {paths[i]}
  {
    hide FoundAgain;
  }

  /** The removal loop, with others free to change the directory before every step. */
  method RemoveOriginals(disk: Disk, gunzip: Bytes -> Option<Bytes>, digest: Bytes -> int, paths: seq<string>,
                         manifest: map<string, Row>, meddle: (nat, map<string, Bytes>) -> map<string, Bytes>,
                         ghost original: map<string, Bytes>)
    returns (ok: bool)
    requires Described(gunzip, digest, paths, |paths|, original, manifest)
    modifies disk
    ensures disk.dest == old(disk.dest)
    ensures |old(disk.history)| <= |disk.history| && old(disk.history) == disk.history[..|old(disk.history)|]
    ensures |old(disk.removed)| <= |disk.removed| && old(disk.removed) == disk.removed[..|old(disk.removed)|]
    ensures SoFar(gunzip, digest, paths, original, disk.dest, disk.history, disk.removed, |old(disk.history)|, |old(disk.removed)|)
    ensures ok <==> Unharmed(meddle, digest, old(disk.files), paths, |paths|, original)
    ensures ok ==> |disk.removed| == |old(disk.removed)| + |paths| && disk.files == LeftBy(meddle, old(disk.files), paths, |paths|)
    ensures DestSince(disk.history, |old(disk.history)|, disk.dest, disk.dest)
    ensures forall i :: |old(disk.removed)| <= i < |disk.removed| ==> i - |old(disk.removed)| < |paths| && disk.removed[i].0 == paths[i - |old(disk.removed)|]
  {
    hide Described, SoFar, PatchName, Unharmed, LeftBy, AllArchived, Kept, KeptSince, RemovedArchived, Archived, Injective, RowOf, DestSince, FoundAgain;
    ghost var h, r := |disk.history|, |disk.removed|;
    UnharmedSteps(meddle, digest, disk.files, paths, 0, original);
    SoFarStarts(gunzip, digest, paths, original, disk.dest, disk.history, disk.removed);
    DestSteps(disk.history, h, disk.dest, disk.dest, disk.files);
    ok := true;
    for i := 0 to |paths|
      invariant disk.dest == old(disk.dest)
      invariant h <= |disk.history| && old(disk.history) == disk.history[..h]
      invariant |disk.removed| == r + i && old(disk.removed) == disk.removed[..r]
      invariant SoFar(gunzip, digest, paths, original, disk.dest, disk.history, disk.removed, h, r)
      invariant forall k :: r <= k < r + i ==> disk.removed[k].0 == paths[k - r]
      invariant Unharmed(meddle, digest, old(disk.files), paths, i, original)
      invariant disk.files == LeftBy(meddle, old(disk.files), paths, i)
      invariant DestSince(disk.history, h, disk.dest, disk.dest)
    {
      UnharmedSteps(meddle, digest, old(disk.files), paths, i, original);
      RowExists(gunzip, digest, paths, original, manifest, i);
      var dir := meddle(i, disk.files);
      SoFarSnapshot(gunzip, digest, paths, original, disk.dest, disk.history, disk.removed, h, r, dir);
      DestSteps(disk.history, h, disk.dest, disk.dest, dir);
      disk.Meddle(dir);
      FoundAgainIs(meddle, digest, old(disk.files), paths, i, original);
      DestSteps(disk.history, h, disk.dest, disk.dest, dir - {paths[i]});
      if paths[i] !in disk.files || digest(disk.files[paths[i]]) != manifest[PatchName(paths[i])].gzipDigest {
        ok := false;
        return;
      }
      SoFarSnapshot(gunzip, digest, paths, original, disk.dest, disk.history, disk.removed, h, r, dir - {paths[i]});
      SoFarRemoved(gunzip, digest, paths, original, manifest, disk.dest, disk.history + [Snapshot(dir - {paths[i]}, disk.dest)], disk.removed, h, r, i, dir[paths[i]]);
      disk.Unlink(paths[i]);
    }
  }

  /** From the `from`-th state on the archive is one of the two. */
  ghost predicate DestSince(history: seq<Snapshot>, from: nat, a: Option<Members>, b: Option<Members>) {
    forall k :: from <= k < |history| ==> history[k].dest == a || history[k].dest == b
  }

  lemma DestSteps(history: seq<Snapshot>, from: nat, a: Option<Members>, b: Option<Members>, files: map<string, Bytes>)
    ensures DestSince(history, |history|, a, b)
    ensures DestSince(history, from, a, a) ==> DestSince(history, from, a, b)
    ensures DestSince(history, from, a, b) ==> DestSince(history + [Snapshot(files, b)], from, a, b)
  {
  }

  lemma DestJoin(before: seq<Snapshot>, after: seq<Snapshot>, from: nat, a: Option<Members>, b: Option<Members>)
    requires |before| <= |after| && before == after[..|before|]
    requires DestSince(before, from, a, b) && DestSince(after, |before|, b, b)
    ensures DestSince(after, from, a, b)
  {
    assert forall k :: 0 <= k < |before| ==> after[k] == before[k];
  }

  /** What has been kept since state `h` and removal `r`, as far as the archive and the digest go. */
  ghost predicate SoFar(gunzip: Bytes -> Option<Bytes>, digest: Bytes -> int, paths: seq<string>, original: map<string, Bytes>,
                        dest: Option<Members>, history: seq<Snapshot>, removed: seq<(string, Bytes)>, h: nat, r: nat) {
    && (AllArchived(gunzip, dest, paths, original) ==> KeptSince(gunzip, paths, original, history, h))
    && (Injective(digest) && AllArchived(gunzip, dest, paths, original) ==> RemovedArchived(gunzip, dest, removed, r))
  }

  lemma SoFarStarts(gunzip: Bytes -> Option<Bytes>, digest: Bytes -> int, paths: seq<string>, original: map<string, Bytes>,
                    dest: Option<Members>, history: seq<Snapshot>, removed: seq<(string, Bytes)>)
    ensures SoFar(gunzip, digest, paths, original, dest, history, removed, |history|, |removed|)
  {
    hide AllArchived, KeptSince, RemovedArchived, Injective;
    KeptNone(gunzip, paths, original, history);
    RemovedNone(gunzip, dest, removed);
  }

  lemma SoFarSnapshot(gunzip: Bytes -> Option<Bytes>, digest: Bytes -> int, paths: seq<string>, original: map<string, Bytes>,
                      dest: Option<Members>, history: seq<Snapshot>, removed: seq<(string, Bytes)>, h: nat, r: nat, files: map<string, Bytes>)
    requires SoFar(gunzip, digest, paths, original, dest, history, removed, h, r)
    ensures SoFar(gunzip, digest, paths, original, dest, history + [Snapshot(files, dest)], removed, h, r)
  {
    hide AllArchived, KeptSince, RemovedArchived, Injective, Kept;
    if AllArchived(gunzip, dest, paths, original) {
      ArchivedIsKept(gunzip, dest, paths, original, files);
      KeptPush(gunzip, paths, original, history, h, Snapshot(files, dest));
    }
  }

  lemma SoFarRemoved(gunzip: Bytes -> Option<Bytes>, digest: Bytes -> int, paths: seq<string>, original: map<string, Bytes>, manifest: map<string, Row>,
                     dest: Option<Members>, history: seq<Snapshot>, removed: seq<(string, Bytes)>, h: nat, r: nat, i: nat, packed: Bytes)
    requires SoFar(gunzip, digest, paths, original, dest, history, removed, h, r) && i < |paths|
    requires Described(gunzip, digest, paths, |paths|, original, manifest) && PatchName(paths[i]) in manifest
    requires digest(packed) == manifest[PatchName(paths[i])].gzipDigest
    ensures SoFar(gunzip, digest, paths, original, dest, history, removed + [(paths[i], packed)], h, r)
  {
    hide AllArchived, KeptSince, RemovedArchived, Injective, Archived, Described, PatchName;
    if Injective(digest) && AllArchived(gunzip, dest, paths, original) {
      SamePacked(gunzip, digest, paths, original, manifest, dest, i, packed);
      RemovedPush(gunzip, dest, removed, r, paths[i], packed);
    }
  }

  lemma KeptNone(gunzip: Bytes -> Option<Bytes>, paths: seq<string>, original: map<string, Bytes>, history: seq<Snapshot>)
    ensures KeptSince(gunzip, paths, original, history, |history|)
  {
  }

  lemma RemovedNone(gunzip: Bytes -> Option<Bytes>, dest: Option<Members>, removed: seq<(string, Bytes)>)
    ensures RemovedArchived(gunzip, dest, removed, |removed|)
  {
  }

  lemma RemovedPush(gunzip: Bytes -> Option<Bytes>, dest: Option<Members>, removed: seq<(string, Bytes)>, from: nat, path: string, packed: Bytes)
    requires RemovedArchived(gunzip, dest, removed, from) && Archived(gunzip, dest, path, packed)
    ensures RemovedArchived(gunzip, dest, removed + [(path, packed)], from)
  {
    hide Archived;
  }

  lemma RowExists(gunzip: Bytes -> Option<Bytes>, digest: Bytes -> int, paths: seq<string>, files: map<string, Bytes>, manifest: map<string, Row>, i: nat)
    requires Described(gunzip, digest, paths, |paths|, files, manifest) && i < |paths|
    ensures PatchName(paths[i]) in manifest && paths[i] in files
    ensures manifest[PatchName(paths[i])].gzipDigest == digest(files[paths[i]])
  {
  }

  lemma MatchingArchives(gunzip: Bytes -> Option<Bytes>, digest: Bytes -> int, paths: seq<string>, files: map<string, Bytes>,
                         manifest: map<string, Row>, archive: Members)
    requires Injective(digest) && Described(gunzip, digest, paths, |paths|, files, manifest) && Matches(digest, manifest, archive)
    ensures AllArchived(gunzip, Some(archive), paths, files)
  {
    MatchingHolds(gunzip, digest, paths, files, manifest, archive);
  }

  /** What must be true of the disk when the program stops, wherever it stops. */
  ghost predicate Lossless(gunzip: Bytes -> Option<Bytes>, paths: seq<string>, original: map<string, Bytes>, disk: Disk, h: nat, r: nat)
    reads disk
  {
    && KeptSince(gunzip, paths, original, disk.history, h)
    && RemovedArchived(gunzip, disk.dest, disk.removed, r)
  }

  /** Everything decompresses, and the stored archive matches the manifest. */
  ghost predicate Passes(gunzip: Bytes -> Option<Bytes>, digest: Bytes -> int, paths: seq<string>, files: map<string, Bytes>, stored: Option<Members>) {
    && AllUnpack(gunzip, paths, files)
    && stored.Some? && Matches(digest, ManifestOf(gunzip, digest, paths, |paths|, files), stored.value)
  }

  /** An archive passes exactly when it holds every checkpoint's patch under its name, and besides them only the manifest. */
  lemma PassesExactly(gunzip: Bytes -> Option<Bytes>, digest: Bytes -> int, paths: seq<string>, files: map<string, Bytes>, archive: Members)
    requires Injective(digest) && Listing(paths, files) && AllUnpack(gunzip, paths, files)
    ensures Passes(gunzip, digest, paths, files, Some(archive)) <==>
            && archive.Keys == (set p | p in paths :: p[..|p| - 3]) + {"MANIFEST.json"}
            && forall p :: p in paths ==> p[..|p| - 3] in archive && archive[p[..|p| - 3]] == gunzip(files[p]).value
  {
    hide IsCheckpoint, PatchName, Injective, ManifestOf, Matches;
    var manifest := ManifestOf(gunzip, digest, paths, |paths|, files);
    ManifestDescribes(gunzip, digest, paths, |paths|, files);
    NamesAre(paths, files);
    ManifestRows(gunzip, digest, paths, files, manifest);
    hide Described, Listing, AllUnpack;
    MatchesRows(gunzip, digest, paths, files, manifest, archive);
  }

  lemma ManifestRows(gunzip: Bytes -> Option<Bytes>, digest: Bytes -> int, paths: seq<string>, files: map<string, Bytes>, manifest: map<string, Row>)
    requires Described(gunzip, digest, paths, |paths|, files, manifest)
    ensures manifest.Keys == set p | p in paths :: PatchName(p)
    ensures forall p :: p in paths ==>
              && PatchName(p) in manifest && p in files && gunzip(files[p]).Some?
              && manifest[PatchName(p)].patchBytes == |gunzip(files[p]).value|
              && manifest[PatchName(p)].patchDigest == digest(gunzip(files[p]).value)
  {
    hide PatchName;
  }

  lemma MatchesRows(gunzip: Bytes -> Option<Bytes>, digest: Bytes -> int, paths: seq<string>, files: map<string, Bytes>,
                    manifest: map<string, Row>, archive: Members)
    requires Injective(digest) && manifest.Keys == set p | p in paths :: PatchName(p)
    requires forall p :: p in paths ==>
               && PatchName(p) in manifest && p in files && gunzip(files[p]).Some?
               && manifest[PatchName(p)].patchBytes == |gunzip(files[p]).value|
               && manifest[PatchName(p)].patchDigest == digest(gunzip(files[p]).value)
    ensures Matches(digest, manifest, archive) <==>
            && archive.Keys == (set p | p in paths :: PatchName(p)) + {"MANIFEST.json"}
            && forall p :: p in paths ==> PatchName(p) in archive && archive[PatchName(p)] == gunzip(files[p]).value
  {
    hide PatchName, Injective;
    if Matches(digest, manifest, archive) {
      forall p | p in paths
        ensures PatchName(p) in archive && archive[PatchName(p)] == gunzip(files[p]).value
      {
        SameDigest(digest, archive[PatchName(p)], gunzip(files[p]).value);
      }
    }
  }

  lemma SameDigest(digest: Bytes -> int, a: Bytes, b: Bytes)
    requires Injective(digest) && digest(a) == digest(b)
    ensures a == b
  {
  }

  lemma NamesAre(paths: seq<string>, files: map<string, Bytes>)
    requires Listing(paths, files)
    ensures forall p :: p in paths ==> |p| >= 3 && PatchName(p) == p[..|p| - 3]
    ensures (set p | p in paths :: PatchName(p)) == set p | p in paths :: p[..|p| - 3]
  {
    forall p | p in paths
      ensures |p| >= 3 && PatchName(p) == p[..|p| - 3]
    {
      var i :| 0 <= i < |paths| && paths[i] == p;
    }
  }

  lemma {:induction false} ManifestDescribes(gunzip: Bytes -> Option<Bytes>, digest: Bytes -> int, paths: seq<string>, n: nat, files: map<string, Bytes>)
    requires n <= |paths| && Listing(paths, files) && AllUnpack(gunzip, paths, files)
    ensures Described(gunzip, digest, paths, n, files, ManifestOf(gunzip, digest, paths, n, files))
  {
    hide Described, IsCheckpoint, PatchName;
    if n == 0 {
      DescribedNone(gunzip, digest, paths, files);
    } else {
      ManifestDescribes(gunzip, digest, paths, n - 1, files);
      DescribeStep(gunzip, digest, paths, n - 1, files, ManifestOf(gunzip, digest, paths, n - 1, files));
    }
  }

  /** With nobody interfering the removal finds every file, and leaves exactly the others. */
  lemma {:induction false} QuietRemoval(meddle: (nat, map<string, Bytes>) -> map<string, Bytes>, digest: Bytes -> int, paths: seq<string>,
                                        n: nat, files: map<string, Bytes>)
    requires n <= |paths| && Listing(paths, files) && forall i, m :: meddle(i, m) == m
    ensures Unharmed(meddle, digest, files, paths, n, files)
    ensures LeftBy(meddle, files, paths, n) == files - (set i | 0 <= i < n :: paths[i])
  {
    hide IsCheckpoint;
    if n > 0 {
      QuietRemoval(meddle, digest, paths, n - 1, files);
      assert paths[n - 1] !in (set i | 0 <= i < n - 1 :: paths[i]);
      assert (set i | 0 <= i < n :: paths[i]) == (set i | 0 <= i < n - 1 :: paths[i]) + {paths[n - 1]};
      assert FoundAgain(meddle, digest, files, paths, n - 1, files);
    }
  }

  /** Everything decompresses, the stored archive matches the manifest, and no file to be removed has changed. */
  ghost predicate Succeeds(gunzip: Bytes -> Option<Bytes>, digest: Bytes -> int, paths: seq<string>, files: map<string, Bytes>,
                           dest: Option<Members>, stored: Option<Members>, remove: bool,
                           meddle: (nat, map<string, Bytes>) -> map<string, Bytes>)
  {
    && paths != [] && dest.None?
    && Passes(gunzip, digest, paths, files, stored)
    && (remove ==> Unharmed(meddle, digest, files, paths, |paths|, files))
  }

  /**
   `main`. `stored` is what reading the temporary archive back yields, whatever was meant to be
   written; `meddle` is what others do to the directory once the archive is published.
   */
  method Archive(disk: Disk, gunzip: Bytes -> Option<Bytes>, digest: Bytes -> int, listing: seq<string>,
                 number: string -> Option<nat>, through: nat, remove: bool, stored: Option<Members>,
                 meddle: (nat, map<string, Bytes>) -> map<string, Bytes>)
    returns (outcome: Outcome)
    requires Listing(listing, disk.files)
    modifies disk
    ensures Injective(digest) ==>
              Lossless(gunzip, Selected(listing, number, through), old(disk.files), disk, |old(disk.history)|, |old(disk.removed)|)
    ensures outcome.Verified? <==>
              Succeeds(gunzip, digest, Selected(listing, number, through), old(disk.files), old(disk.dest), stored, remove, meddle)
    ensures outcome.Refused? <==> Selected(listing, number, through) == [] || old(disk.dest).Some?
    ensures outcome.Refused? ==> disk.history == old(disk.history) && disk.files == old(disk.files)
    ensures old(disk.dest).Some? ==> disk.dest == old(disk.dest)
    ensures disk.dest == if outcome.Refused? || !Passes(gunzip, digest, Selected(listing, number, through), old(disk.files), stored)
                         then old(disk.dest) else stored
    ensures DestSince(disk.history, |old(disk.history)|, old(disk.dest), disk.dest)
    ensures disk.dest == old(disk.dest) || !remove ==> disk.files == old(disk.files) && disk.removed == old(disk.removed)
    ensures outcome.Verified? ==> disk.dest == stored && outcome.count == |Selected(listing, number, through)|
    ensures outcome.Verified? && remove ==>
              && |disk.removed| == |old(disk.removed)| + outcome.count
              && disk.files == LeftBy(meddle, old(disk.files), Selected(listing, number, through), outcome.count)
    ensures forall i :: |old(disk.removed)| <= i < |disk.removed| ==> disk.removed[i].0 in Selected(listing, number, through)
  {
    hide Kept, KeptSince, Described, Archived, AllArchived, RemovedArchived, Injective, Matches, Selected, IsCheckpoint, AllUnpack, ManifestOf, Unharmed;
    hide DestSince, LeftBy, DistinctPaths;
    ghost var h, r, original := |disk.history|, |disk.removed|, disk.files;
    var paths := Select(listing, number, through);
    SelectedListing(listing, number, through, disk.files);
    KeptNone(gunzip, paths, original, disk.history);
    RemovedNone(gunzip, disk.dest, disk.removed);
    DestSteps(disk.history, h, disk.dest, disk.dest, original);
    if paths == [] || disk.dest.Some? {
      return Refused;
    }
    UnchangedIsKept(gunzip, paths, original, disk.dest);
    KeptPush(gunzip, paths, original, disk.history, h, Snapshot(original, disk.dest));
    disk.WriteTemporary(None);
    var manifest := Describe(disk, gunzip, digest, paths);
    if manifest.None? {
      return Failed;
    }
    KeptPush(gunzip, paths, original, disk.history, h, Snapshot(original, disk.dest));
    DestSteps(disk.history, h, disk.dest, disk.dest, original);
    disk.WriteTemporary(stored);
    if disk.temporary.None? || !Matches(digest, manifest.value, disk.temporary.value) {
      return Failed;
    }
    if Injective(digest) {
      MatchingArchives(gunzip, digest, paths, original, manifest.value, disk.temporary.value);
      ArchivedIsKept(gunzip, disk.temporary, paths, original, original);
      KeptPush(gunzip, paths, original, disk.history, h, Snapshot(original, disk.temporary));
    }
    DestSteps(disk.history, h, disk.dest, disk.temporary, original);
    disk.Publish();
    RemovedNone(gunzip, disk.dest, disk.removed);
    ghost var published := disk.history;
    if remove {
      var ok := RemoveOriginals(disk, gunzip, digest, paths, manifest.value, meddle, original);
      DestJoin(published, disk.history, h, old(disk.dest), disk.dest);
      if Injective(digest) { KeptJoin(gunzip, paths, original, published, disk.history, h); }
      if !ok {
        return Failed;
      }
    }
    outcome := Verified(|paths|);
  }

  lemma KeptJoin(gunzip: Bytes -> Option<Bytes>, paths: seq<string>, original: map<string, Bytes>, before: seq<Snapshot>, after: seq<Snapshot>, from: nat)
    requires |before| <= |after| && before == after[..|before|]
    requires KeptSince(gunzip, paths, original, before, from) && KeptSince(gunzip, paths, original, after, |before|)
    ensures KeptSince(gunzip, paths, original, after, from)
  {
    hide Kept;
    assert forall k :: 0 <= k < |before| ==> after[k] == before[k];
  }
}
