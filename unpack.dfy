/** `untar_scenes`: unpack each downloaded `.tar.gz` archive into
    `target/<path-row>/<scene>` and delete the archive once it is extracted.

    The filesystem is a map from path to entry. An archive entry records
    what `tarfile.open` would see (its member names) and whether
    `extractall` succeeds; the extracted contents are not modelled. */
module Unpack {
  import opened Results
  import opened PyText

  /** What `tarfile.open` reads from an archive, and whether `extractall` succeeds. */
  datatype Archive = Archive(members: seq<string>, extracts: bool)

  /** A directory, or a file that may or may not open as a tar archive. */
  datatype Entry = Dir | File(archive: Option<Archive>)

  type Entries = map<string, Entry>

  // ----- The filesystem operations the loop uses -----

  predicate IsDir(entries: Entries, path: string) {
    path in entries && entries[path].Dir?
  }

  /** The parent of a path exists as a directory (a single-segment path
      lives in the working directory, an absolute one under `/`). */
  predicate ParentIsDir(entries: Entries, path: string) {
    var ps := Split(path, '/');
    |ps| == 1 || (var parent := Join(ps[..|ps| - 1], '/'); parent == [] || IsDir(entries, parent))
  }

  /** `os.mkdir(path)` succeeds: the path is new and its parent is a directory. */
  predicate CanMkdir(entries: Entries, path: string) {
    path != [] && path !in entries && ParentIsDir(entries, path)
  }

  class FileSystem {
    var entries: Entries

    constructor (initial: Entries)
      ensures entries == initial
    {
      entries := initial;
    }

    /** `os.mkdir`; false where Python raises. */
    method Mkdir(path: string) returns (ok: bool)
      modifies this
      ensures ok == CanMkdir(old(entries), path)
      ensures entries == if ok then old(entries)[path := Dir] else old(entries)
    {
      ok := CanMkdir(entries, path);
      if ok {
        entries := entries[path := Dir];
      }
    }

    /** `os.unlink`; false where Python raises. */
    method Unlink(path: string) returns (ok: bool)
      modifies this
      ensures ok == (path in old(entries) && old(entries)[path].File?)
      ensures entries == if ok then old(entries) - {path} else old(entries)
    {
      ok := path in entries && entries[path].File?;
      if ok {
        entries := entries - {path};
      }
    }
  }

  // ----- Which archives are looked at -----

  /** A name `*.tar.gz` matches in `glob`: it ends so, is not hidden and
      names an entry of the directory itself. */
  predicate IsTarGz(name: string) {
    EndsWith(name, ".tar.gz") && name[0] != '.' && '/' !in name
  }

  /** `glob.glob` of the `.tar.gz` names directly under `source`, in
      listing order. */
  function TarFiles(source: string, listing: seq<string>): (r: seq<string>)
    ensures forall p :: p in r ==> EndsWith(p, ".tar.gz")
    decreases |listing|
  {
    if listing == [] then []
    else
      var n := |listing| - 1;
      var name := listing[n];
      TarFiles(source, listing[..n]) + if IsTarGz(name) then [source + "/" + name] else []
  }

  /** A path is processed iff the listing holds a matching name it is the path of. */
  lemma {:induction false} TarFilesMembers(source: string, listing: seq<string>, p: string)
    ensures p in TarFiles(source, listing) <==>
            exists i :: 0 <= i < |listing| && IsTarGz(listing[i]) && p == source + "/" + listing[i]
    decreases |listing|
  {
    if listing != [] {
      var n := |listing| - 1;
      TarFilesMembers(source, listing[..n], p);
      assert forall i :: 0 <= i < n ==> listing[..n][i] == listing[i];
      if exists i :: 0 <= i < |listing| && IsTarGz(listing[i]) && p == source + "/" + listing[i] {
        var i :| 0 <= i < |listing| && IsTarGz(listing[i]) && p == source + "/" + listing[i];
        if i < n {
          assert listing[..n][i] == listing[i];
        }
      }
    }
  }

  // ----- Where an archive goes -----

  /** The member-name test: the last three characters are `xml`. */
  predicate IsXml(name: string) {
    |name| >= 3 && name[|name| - 3] == 'x' && name[|name| - 2] == 'm' && name[|name| - 1] == 'l'
  }

  /** The test is the source's `n[-3:] == 'xml'`. */
  lemma IsXmlIsTail(name: string)
    ensures IsXml(name) <==> Tail(name, 3) == "xml"
  {
    if |name| >= 3 {
      assert Tail(name, 3) == [name[|name| - 3], name[|name| - 2], name[|name| - 1]];
    }
  }

  /** `[n for n in tf.getnames() if n[-3:] == 'xml'][0]`, as an index; None
      is the IndexError. */
  function MetadataIndex(members: seq<string>): (r: Option<nat>)
    ensures r.Some? ==> r.value < |members| && IsXml(members[r.value])
                        && forall j :: 0 <= j < r.value ==> !IsXml(members[j])
    ensures r.None? ==> forall j :: 0 <= j < |members| ==> !IsXml(members[j])
    decreases |members|
  {
    if members == [] then None
    else if IsXml(members[0]) then Some(0)
    else
      var rest := MetadataIndex(members[1..]);
      assert forall j :: 1 <= j < |members| ==> members[1..][j - 1] == members[j];
      match rest
      case None => None
      case Some(i) => Some(i + 1)
  }

  /** The folders an archive is unpacked into. */
  datatype Plan = Plan(xml: string, tileDir: string, sceneDir: string)

  /** The scene name: the metadata member's name up to its first `.`. */
  function SceneName(xml: string): string {
    Split(xml, '.')[0]
  }

  function PlanFor(members: seq<string>, target: string): Option<Plan> {
    match MetadataIndex(members)
    case None => None
    case Some(i) =>
      var xml := members[i];
      var tileDir := target + "/" + Slice(xml, 10, 16);
      Some(Plan(xml, tileDir, tileDir + "/" + SceneName(xml)))
  }

  /** The scene name holds no `.` and starts the member name; when it is
      not the whole name, a `.` follows it. */
  lemma SceneNameShape(xml: string)
    ensures '.' !in SceneName(xml)
    ensures |SceneName(xml)| <= |xml| && xml[..|SceneName(xml)|] == SceneName(xml)
    ensures |SceneName(xml)| < |xml| ==> xml[|SceneName(xml)|] == '.'
  {
    var ps := Split(xml, '.');
    SplitJoin(xml, '.');
    assert '.' !in ps[0];
    if |ps| > 1 {
      assert Join(ps, '.') == ps[0] + ['.'] + Join(ps[1..], '.');
      assert xml[..|ps[0]|] == ps[0];
      assert xml[|ps[0]|] == '.';
    } else {
      assert Join(ps, '.') == ps[0];
    }
  }

  /** Where a readable archive with a metadata member goes: the tile folder
      is the member name's characters 10 to 16 under the target, and the
      scene folder the scene name under that. */
  lemma PlanShape(members: seq<string>, target: string)
    ensures PlanFor(members, target).Some? <==> exists i :: 0 <= i < |members| && IsXml(members[i])
    ensures PlanFor(members, target).Some? ==>
              var p := PlanFor(members, target).value;
              && p.xml in members && IsXml(p.xml)
              && (|p.xml| >= 16 ==> p.tileDir == target + "/" + p.xml[10..16])
              && p.sceneDir == p.tileDir + "/" + SceneName(p.xml)
  {
  }

  // ----- One archive -----

  /** How the body of the loop ends for one archive. */
  datatype Outcome =
    | Unpacked(sceneDir: string)   // extracted and the archive deleted
    | Unreadable                   // `tarfile.open` raised
    | NoMetadata                   // no member ends in `xml`
    | TileFolderFailed             // `os.mkdir` of the tile folder raised
    | SceneFolderFailed            // `os.mkdir` of the scene folder raised
    | ExtractFailed                // `extractall` raised

  datatype Step = Step(outcome: Outcome, entries: Entries)

  /** The loop body for `tarPath`: both `except` clauses only report, so a
      failure leaves whatever folders were already made. */
  function UnpackOne(entries: Entries, tarPath: string, target: string): Step {
    if tarPath !in entries || !entries[tarPath].File? || entries[tarPath].archive.None? then Step(Unreadable, entries)
    else
      var archive := entries[tarPath].archive.value;
      match PlanFor(archive.members, target)
      case None => Step(NoMetadata, entries)
      case Some(plan) =>
        if !IsDir(entries, plan.tileDir) && !CanMkdir(entries, plan.tileDir) then Step(TileFolderFailed, entries)
        else
          var e1 := if IsDir(entries, plan.tileDir) then entries else entries[plan.tileDir := Dir];
          if !CanMkdir(e1, plan.sceneDir) then Step(SceneFolderFailed, e1)
          else
            var e2 := e1[plan.sceneDir := Dir];
            if !archive.extracts then Step(ExtractFailed, e2)
            else Step(Unpacked(plan.sceneDir), e2 - {tarPath})
  }

  /** The loop body of `untar_scenes` for one archive. */
  method UnpackArchive(fs: FileSystem, tarPath: string, target: string) returns (outcome: Outcome)
    modifies fs
    ensures Step(outcome, fs.entries) == UnpackOne(old(fs.entries), tarPath, target)
  {
    if tarPath !in fs.entries || !fs.entries[tarPath].File? || fs.entries[tarPath].archive.None? {
      return Unreadable;
    }
    var archive := fs.entries[tarPath].archive.value;
    var index := MetadataIndex(archive.members);
    if index.None? {
      return NoMetadata;
    }
    var xml := archive.members[index.value];
    var tileDir := target + "/" + Slice(xml, 10, 16);
    var sceneDir := tileDir + "/" + SceneName(xml);
    if !IsDir(fs.entries, tileDir) {
      var made := fs.Mkdir(tileDir);
      if !made {
        return TileFolderFailed;
      }
    }
    var made := fs.Mkdir(sceneDir);
    if !made {
      return SceneFolderFailed;
    }
    if !archive.extracts {
      return ExtractFailed;
    }
    var deleted := fs.Unlink(tarPath);
    assert deleted;
    return Unpacked(sceneDir);
  }

  /** `tarfile.open(tarPath)` succeeds. */
  predicate Readable(entries: Entries, tarPath: string) {
    tarPath in entries && entries[tarPath].File? && entries[tarPath].archive.Some?
  }

  /** The folders an archive may add: its tile and scene folders. */
  function FoldersOf(entries: Entries, tarPath: string, target: string): set<string> {
    if !Readable(entries, tarPath) then {}
    else
      match PlanFor(entries[tarPath].archive.value.members, target)
      case None => {}
      case Some(plan) => {plan.tileDir, plan.sceneDir}
  }

  /** What one archive does to the filesystem: it is deleted iff it was
      unpacked; no other existing entry changes; every new entry is one of
      its two folders, and a directory. */
  lemma UnpackOneEffect(entries: Entries, tarPath: string, target: string)
    ensures var s := UnpackOne(entries, tarPath, target);
            && (tarPath in entries ==> (tarPath !in s.entries <==> s.outcome.Unpacked?))
            && (forall k :: k in entries && k != tarPath ==> k in s.entries && s.entries[k] == entries[k])
            && (tarPath in s.entries ==> tarPath in entries && s.entries[tarPath] == entries[tarPath])
            && (forall k :: k in s.entries && k !in entries ==> s.entries[k] == Dir && k in FoldersOf(entries, tarPath, target))
  {
    var s := UnpackOne(entries, tarPath, target);
    if Readable(entries, tarPath) {
      var archive := entries[tarPath].archive.value;
      if PlanFor(archive.members, target).Some? {
        var plan := PlanFor(archive.members, target).value;
        assert FoldersOf(entries, tarPath, target) == {plan.tileDir, plan.sceneDir};
        if IsDir(entries, plan.tileDir) || CanMkdir(entries, plan.tileDir) {
          var e1 := if IsDir(entries, plan.tileDir) then entries else entries[plan.tileDir := Dir];
          assert tarPath in e1 && e1[tarPath] == entries[tarPath];
          if CanMkdir(e1, plan.sceneDir) {
            var e2 := e1[plan.sceneDir := Dir];
            assert tarPath in e2 && e2[tarPath] == entries[tarPath];
            assert s.entries == if archive.extracts then e2 - {tarPath} else e2;
          } else {
            assert s.entries == e1;
          }
        } else {
          assert s.entries == entries;
        }
      } else {
        assert s.entries == entries;
      }
    } else {
      assert s.entries == entries;
    }
  }

  /** An archive is unpacked exactly when it opens, has a metadata member,
      both folders can be had and `extractall` succeeds. */
  lemma UnpackedIff(entries: Entries, tarPath: string, target: string)
    ensures UnpackOne(entries, tarPath, target).outcome.Unpacked? <==>
            && tarPath in entries && entries[tarPath].File? && entries[tarPath].archive.Some?
            && (var archive := entries[tarPath].archive.value;
                && PlanFor(archive.members, target).Some?
                && (var plan := PlanFor(archive.members, target).value;
                    && (IsDir(entries, plan.tileDir) || CanMkdir(entries, plan.tileDir))
                    && plan.sceneDir !in entries && plan.sceneDir != plan.tileDir
                    && archive.extracts
                    && CanMkdir(if IsDir(entries, plan.tileDir) then entries else entries[plan.tileDir := Dir], plan.sceneDir)))
  {
  }

  /** A scene folder that already exists stops the archive: it is neither
      extracted nor deleted. */
  lemma ExistingSceneFolderKeepsArchive(entries: Entries, tarPath: string, target: string)
    requires tarPath in entries && entries[tarPath].File? && entries[tarPath].archive.Some?
    requires PlanFor(entries[tarPath].archive.value.members, target).Some?
    requires PlanFor(entries[tarPath].archive.value.members, target).value.sceneDir in entries
    ensures var s := UnpackOne(entries, tarPath, target);
            && !s.outcome.Unpacked? && !s.outcome.ExtractFailed?
            && tarPath in s.entries && s.entries[tarPath] == entries[tarPath]
  {
  }

  /** The tile folder is made only when it is not already a directory. */
  lemma TileFolderMadeOnlyIfAbsent(entries: Entries, tarPath: string, target: string)
    requires tarPath in entries && entries[tarPath].File? && entries[tarPath].archive.Some?
    requires PlanFor(entries[tarPath].archive.value.members, target).Some?
    ensures var plan := PlanFor(entries[tarPath].archive.value.members, target).value;
            var s := UnpackOne(entries, tarPath, target);
            IsDir(entries, plan.tileDir) ==> s.entries - {plan.sceneDir, tarPath} == entries - {plan.sceneDir, tarPath}
  {
  }

  // ----- All archives -----

  /** The loop over the archives: every one is tried, on the filesystem the
      earlier ones left. */
  function UnpackAll(entries: Entries, paths: seq<string>, target: string): (seq<Outcome>, Entries)
    decreases |paths|
  {
    if paths == [] then ([], entries)
    else
      var n := |paths| - 1;
      var before := UnpackAll(entries, paths[..n], target);
      var s := UnpackOne(before.1, paths[n], target);
      (before.0 + [s.outcome], s.entries)
  }

  /** `untar_scenes` after the arguments. */
  method UntarScenes(fs: FileSystem, source: string, listing: seq<string>, target: string)
    returns (outcomes: seq<Outcome>)
    modifies fs
    ensures (outcomes, fs.entries) == UnpackAll(old(fs.entries), TarFiles(source, listing), target)
  {
    var tarFiles := TarFiles(source, listing);
    outcomes := [];
    for i := 0 to |tarFiles|
      invariant (outcomes, fs.entries) == UnpackAll(old(fs.entries), tarFiles[..i], target)
    {
      assert tarFiles[..i + 1][..i] == tarFiles[..i];
      var outcome := UnpackArchive(fs, tarFiles[i], target);
      outcomes := outcomes + [outcome];
    }
    assert tarFiles[..|tarFiles|] == tarFiles;
  }

  lemma {:induction false} UnpackAllPrefix(entries: Entries, paths: seq<string>, target: string, k: nat)
    requires k <= |paths|
    ensures |UnpackAll(entries, paths, target).0| == |paths|
    ensures UnpackAll(entries, paths[..k], target).0 == UnpackAll(entries, paths, target).0[..k]
    decreases |paths|
  {
    if k == |paths| {
      assert paths[..k] == paths;
      if paths != [] {
        UnpackAllPrefix(entries, paths[..|paths| - 1], target, 0);
      }
    } else {
      var n := |paths| - 1;
      UnpackAllPrefix(entries, paths[..n], target, k);
      assert paths[..n][..k] == paths[..k];
    }
  }

  /** One archive's failure does not stop the others: there is one outcome
      per archive, each that of the archive on the state the earlier ones
      left. */
  lemma EveryArchiveTried(entries: Entries, paths: seq<string>, target: string, i: nat)
    requires i < |paths|
    ensures |UnpackAll(entries, paths, target).0| == |paths|
    ensures UnpackAll(entries, paths, target).0[i]
            == UnpackOne(UnpackAll(entries, paths[..i], target).1, paths[i], target).outcome
  {
    UnpackAllPrefix(entries, paths, target, i + 1);
    var prefix := paths[..i + 1];
    assert prefix[..i] == paths[..i] && prefix[i] == paths[i];
    UnpackAllPrefix(entries, prefix, target, i);
  }

  /** Some archive at path k was unpacked. */
  predicate UnpackedAt(paths: seq<string>, outcomes: seq<Outcome>, k: string) {
    exists i :: 0 <= i < |paths| && i < |outcomes| && paths[i] == k && outcomes[i].Unpacked?
  }

  /** Over the whole run: an existing entry changes or disappears only as an
      archive that was unpacked, and every new entry is a directory. */
  lemma {:induction false} UnpackAllEffect(entries: Entries, paths: seq<string>, target: string)
    ensures |UnpackAll(entries, paths, target).0| == |paths|
    ensures var r := UnpackAll(entries, paths, target);
            forall k :: k in entries && !UnpackedAt(paths, r.0, k) ==> k in r.1 && r.1[k] == entries[k]
    ensures var r := UnpackAll(entries, paths, target);
            forall k :: k in r.1 && k !in entries ==> r.1[k] == Dir
    decreases |paths|
  {
    if paths != [] {
      var n := |paths| - 1;
      var pre := paths[..n];
      UnpackAllEffect(entries, pre, target);
      var before := UnpackAll(entries, pre, target);
      var s := UnpackOne(before.1, paths[n], target);
      UnpackOneEffect(before.1, paths[n], target);
      var r := UnpackAll(entries, paths, target);
      assert r.0 == before.0 + [s.outcome] && r.1 == s.entries;
      StepComposes(entries, before.1, s.entries, pre, before.0, paths[n], s.outcome);
      assert pre + [paths[n]] == paths;
    }
  }

  /** The induction step of `UnpackAllEffect`, stated on plain values. */
  lemma StepComposes(entries: Entries, mid: Entries, after: Entries, pre: seq<string>, outs: seq<Outcome>,
                     path: string, outcome: Outcome)
    requires |outs| == |pre|
    requires forall k :: k in entries && !UnpackedAt(pre, outs, k) ==> k in mid && mid[k] == entries[k]
    requires forall k :: k in mid && k !in entries ==> mid[k] == Dir
    requires path in mid ==> (path !in after <==> outcome.Unpacked?)
    requires forall k :: k in mid && k != path ==> k in after && after[k] == mid[k]
    requires path in after ==> path in mid && after[path] == mid[path]
    requires forall k :: k in after && k !in mid ==> after[k] == Dir
    ensures forall k :: k in entries && !UnpackedAt(pre + [path], outs + [outcome], k) ==> k in after && after[k] == entries[k]
    ensures forall k :: k in after && k !in entries ==> after[k] == Dir
  {
    forall k | k in entries && !UnpackedAt(pre + [path], outs + [outcome], k)
      ensures k in after && after[k] == entries[k]
    {
      UnpackedAtGrows(pre, outs, path, outcome, k);
    }
  }

  lemma UnpackedAtGrows(pre: seq<string>, outs: seq<Outcome>, path: string, outcome: Outcome, k: string)
    ensures UnpackedAt(pre, outs, k) ==> UnpackedAt(pre + [path], outs + [outcome], k)
    ensures |outs| == |pre| && k == path && outcome.Unpacked? ==> UnpackedAt(pre + [path], outs + [outcome], k)
  {
    if UnpackedAt(pre, outs, k) {
      var i :| 0 <= i < |pre| && i < |outs| && pre[i] == k && outs[i].Unpacked?;
      assert (pre + [path])[i] == k && (outs + [outcome])[i] == outs[i];
    }
    if |outs| == |pre| && k == path && outcome.Unpacked? {
      assert (pre + [path])[|pre|] == k && (outs + [outcome])[|pre|] == outcome;
    }
  }
}
