/**
 * The pack command over an abstract disk: duplicate mapped files are merged into one file of the
 * trace directory and the mmaps file is replaced. Whether a crash at some moment could lose data
 * depends on one thing, the prefix test for the trace directory, and the condition is made exact.
 */
module Pack {
  import opened Prelude
  import opened PackNames

  type Content = seq<byte>

  /** One record of the mmaps file; `info` is everything about the mapping but its backing file. */
  datatype Record = FileRecord(name: string, size: nat, info: nat) | OtherRecord(info: nat)

  /** The files, the mmaps file, and the replacement for it while it is being written. */
  datatype Disk = Disk(files: map<string, Content>, mmaps: seq<Record>, packed: Option<seq<Record>>)

  /** Record `i` on `now` refers to a file with the bytes it referred to on `start`. */
  predicate RecordSafe(dir: string, start: Disk, now: Disk, i: nat)
    requires i < |start.mmaps| == |now.mmaps|
  {
    match start.mmaps[i]
    case OtherRecord(_) => now.mmaps[i] == start.mmaps[i]
    case FileRecord(name, size, info) =>
      && now.mmaps[i].FileRecord? && now.mmaps[i].size == size && now.mmaps[i].info == info
      && Resolve(dir, name) in start.files
      && Resolve(dir, now.mmaps[i].name) in now.files
      && now.files[Resolve(dir, now.mmaps[i].name)] == start.files[Resolve(dir, name)]
  }

  predicate Elsewhere(dir: string, start: Disk, now: Disk) {
    forall f :: f in start.files && !Inside(f, dir) ==> f in now.files && now.files[f] == start.files[f]
  }

  /** The trace can still be replayed, and nothing outside the trace directory has changed. */
  predicate Safe(dir: string, start: Disk, now: Disk) {
    && |now.mmaps| == |start.mmaps|
    && (forall i :: 0 <= i < |start.mmaps| ==> RecordSafe(dir, start, now, i))
    && Elsewhere(dir, start, now)
  }

  /** Every named file is there. */
  predicate Complete(dir: string, d: Disk) {
    forall i :: 0 <= i < |d.mmaps| && d.mmaps[i].FileRecord? ==> Resolve(dir, d.mmaps[i].name) in d.files
  }

  /** If record `i` is the first to name its file, it has the file's size. */
  predicate SizeOk(dir: string, d: Disk, i: nat)
    requires i < |d.mmaps|
  {
    d.mmaps[i].FileRecord? ==>
      var path := Resolve(dir, d.mmaps[i].name);
      path in d.files && !Named(dir, d.mmaps[..i], path) ==> |d.files[path]| == d.mmaps[i].size
  }

  /** What the command checks before it changes anything. */
  predicate Readable(dir: string, d: Disk) {
    Complete(dir, d) && forall i :: 0 <= i < |d.mmaps| ==> SizeOk(dir, d, i)
  }

  /** Every file of `start` is on `now`, unchanged. */
  predicate Grown(start: Disk, now: Disk) {
    && now.mmaps == start.mmaps
    && forall f :: f in start.files ==> f in now.files && now.files[f] == start.files[f]
  }

  lemma GrownIsSafe(dir: string, start: Disk, now: Disk)
    requires Complete(dir, start) && Grown(start, now)
    ensures Safe(dir, start, now)
  {
    forall i | 0 <= i < |start.mmaps|
      ensures RecordSafe(dir, start, now, i)
    {
    }
  }

  predicate Plain(path: string, dir: string) { !IsHardlink(path) && IsInTraceDir(path, dir) }

  predicate Named(dir: string, records: seq<Record>, path: string) {
    exists i :: 0 <= i < |records| && records[i].FileRecord? && Resolve(dir, records[i].name) == path
  }

  predicate FileIn(dir: string, files: map<string, Content>, base: string, c: Content) {
    dir + "/" + base in files && files[dir + "/" + base] == c
  }

  // ---- what decides whether packing is safe

  /** The plain named file that stands for its content: the first in the order of names. */
  ghost predicate IsLeastPlain(dir: string, d: Disk, p: string) {
    && Named(dir, d.mmaps, p) && Plain(p, dir) && p in d.files
    && forall q :: Named(dir, d.mmaps, q) && Plain(q, dir) && q in d.files && d.files[q] == d.files[p] ==>
         q == p || Before(p, q)
  }

  /** Each of these is, under its last component, a file of the trace directory with the same bytes. */
  ghost predicate Sound(dir: string, d: Disk) {
    forall p :: IsLeastPlain(dir, d, p) ==> FileIn(dir, d.files, Basename(p), d.files[p])
  }

  /** Named files that pass the prefix test lie directly in the directory. */
  predicate Placed(dir: string, d: Disk) {
    forall i :: 0 <= i < |d.mmaps| && d.mmaps[i].FileRecord? ==>
      IsInTraceDir(Resolve(dir, d.mmaps[i].name), dir) ==> Inside(Resolve(dir, d.mmaps[i].name), dir)
  }

  lemma PlacedIsSound(dir: string, d: Disk)
    requires Placed(dir, d)
    ensures Sound(dir, d)
  {
    hide Resolve, Basename;
    forall p | IsLeastPlain(dir, d, p)
      ensures FileIn(dir, d.files, Basename(p), d.files[p])
    {
      assert Inside(p, dir);
    }
  }

  /** A trace whose one file lies in a sibling directory with a similar name. */
  const SIBLING := Disk(map["/t/ab/x" := [7]], [FileRecord("/t/ab/x", 1, 0)], None)

  lemma SiblingBase()
    ensures Basename("/t/ab/x") == "x"
  {
    assert "/t/ab" + "/" + "x" == "/t/ab/x";
    BasenameInside("/t/ab", "x");
  }

  lemma SiblingNames()
    ensures Basename("/t/ab/x") == "x" && Resolve("/t/a", "/t/ab/x") == "/t/ab/x" && Plain("/t/ab/x", "/t/a")
    ensures "/t/a" + "/" + "x" != "/t/ab/x"
  {
    hide Basename;
    SiblingBase();
    assert |"mmap_hardlink_"| > |"x"|;
    assert |"/t/a" + "/" + "x"| < |"/t/ab/x"|;
  }

  lemma SiblingIsUnsound()
    ensures Readable("/t/a", SIBLING) && SIBLING.packed.None? && !Sound("/t/a", SIBLING)
  {
    hide Basename, Resolve, Plain, Before;
    SiblingNames();
    SiblingLeast();
    var dir, p := "/t/a", "/t/ab/x";
    assert IsLeastPlain(dir, SIBLING, p) && !FileIn(dir, SIBLING.files, "x", SIBLING.files[p]);
  }

  lemma SiblingLeast()
    ensures IsLeastPlain("/t/a", SIBLING, "/t/ab/x") && Resolve("/t/a", "x") == "/t/a/x"
  {
    hide Basename, Plain, Before;
    SiblingNames();
    var dir, p, records := "/t/a", "/t/ab/x", SIBLING.mmaps;
    assert records[0].FileRecord? && Resolve(dir, records[0].name) == p;
    assert Named(dir, records, p);
    assert forall q :: Named(dir, records, q) ==> q == p;
    assert "/t/a" + "/" + "x" == "/t/a/x";
  }

  // ---- gathering and choosing

  /** The files the records name, with their contents. */
  ghost predicate Gathered(dir: string, d: Disk, info: map<string, Content>) {
    && (forall p :: p in info ==> p in d.files && info[p] == d.files[p])
    && (forall p :: p in info <==> Named(dir, d.mmaps, p))
  }

  /** `p` is the first plain name of its content. */
  ghost predicate Leads(dir: string, info: map<string, Content>, p: string)
    requires p in info
  {
    Plain(p, dir) && forall q :: q in info && Plain(q, dir) && info[q] == info[p] ==> q == p || Before(p, q)
  }

  /** A representative for each content: the first plain name if there is any. */
  ghost predicate Chosen(dir: string, info: map<string, Content>, names: map<Content, string>) {
    && (forall c :: c in names ==> names[c] in info && info[names[c]] == c)
    && (forall p :: p in info ==> info[p] in names)
    && (forall c :: c in names ==>
          Leads(dir, info, names[c]) || forall p :: p in info && info[p] == c ==> !Plain(p, dir))
  }

  /**
   * Homes for the contents: the plain representative where there is one, or else a fresh copy in
   * the directory; and no other new file.
   */
  ghost predicate Housed(dir: string, original: map<string, Content>, files: map<string, Content>,
                         names: map<Content, string>, homes: map<Content, string>)
  {
    && homes.Keys <= names.Keys
    && (forall c :: c in homes ==> homes[c] in files && files[homes[c]] == c)
    && (forall c :: c in homes ==>
          if Plain(names[c], dir) then homes[c] == names[c] else homes[c] !in original && IsCopyName(homes[c], dir))
    && (forall f :: f in files && f !in original ==> f in files && files[f] in homes && homes[files[f]] == f)
  }

  class TraceDirectory {
    const dir: string
    var disk: Disk
    /** The disk when packing began, and after every change since. */
    ghost var start: Disk
    ghost var history: seq<Disk>

    constructor (dir: string, disk: Disk)
      ensures this.dir == dir && this.disk == disk && start == disk && history == []
    {
      this.dir, this.disk, start, history := dir, disk, disk, [];
    }

    /** A crash at any moment so far would have left a safe disk. */
    ghost predicate AlwaysSafe()
      reads this
    {
      forall k :: 0 <= k < |history| ==> Safe(dir, start, history[k])
    }

    /** One change of the disk. */
    method Become(next: Disk)
      modifies this
      ensures disk == next && start == old(start) && history == old(history) + [next]
      ensures AlwaysSafe() <==> old(AlwaysSafe()) && Safe(dir, start, next)
    {
      hide Safe;
      ghost var before := history;
      disk := next;
      history := history + [next];
      assert history[|before|] == next;
      assert forall k :: 0 <= k < |before| ==> history[k] == before[k];
    }

    // ---- choosing

    /** What the records name; `None` stops the command before it has changed anything. */
    method GatherFileInfo() returns (info: Option<map<string, Content>>)
      ensures info.None? <==> !Readable(dir, disk)
      ensures info.Some? ==> Gathered(dir, disk, info.value)
    {
      hide Resolve, Named;
      var m: map<string, Content> := map[];
      NothingNamed(dir, disk.mmaps);
      for i := 0 to |disk.mmaps|
        invariant forall p :: p in m ==> p in disk.files && m[p] == disk.files[p]
        invariant forall k :: 0 <= k < i && disk.mmaps[k].FileRecord? ==> Resolve(dir, disk.mmaps[k].name) in disk.files
        invariant forall k :: 0 <= k < i ==> SizeOk(dir, disk, k)
        invariant forall p :: p in m <==> Named(dir, disk.mmaps[..i], p)
      {
        NamedSnoc(dir, disk.mmaps, i);
        if disk.mmaps[i].FileRecord? {
          var path := Resolve(dir, disk.mmaps[i].name);
          if path !in disk.files || (path !in m && |disk.files[path]| != disk.mmaps[i].size) {
            assert path in disk.files ==> !SizeOk(dir, disk, i);
            return None;
          }
          m := m[path := disk.files[path]];
        }
      }
      assert disk.mmaps[..|disk.mmaps|] == disk.mmaps;
      return Some(m);
    }

    /** In the order of names, a content keeps its representative once that is plain. */
    method ChooseNames(info: map<string, Content>) returns (names: map<Content, string>)
      ensures Chosen(dir, info, names)
    {
      hide Sofar, Plain, IsLeast;
      names := map[];
      var left := info.Keys;
      SofarNone(dir, info);
      while left != {}
        invariant Sofar(dir, info, left, names)
        decreases |left|
      {
        ghost var least := LeastExists(left);
        var p: string :| IsLeast(left, p);
        SofarStep(dir, info, left, names, p);
        left := left - {p};
        if info[p] in names && Plain(names[info[p]], dir) {
          continue;
        }
        names := names[info[p] := p];
      }
      SofarAll(dir, info, names);
    }

    // ---- copying

    /** Create an empty file under a free numbered name. */
    method CreateCopy(last: string, index: nat) returns (name: string, index': nat)
      requires Complete(dir, start) && Grown(start, disk) && AlwaysSafe() && start.files.Keys <= disk.files.Keys
      modifies this
      ensures start == old(start) && Grown(start, disk) && AlwaysSafe()
      ensures index < index' && name == CopyName(dir, index' - 1, last) && name !in old(disk.files)
      ensures disk == old(disk).(files := old(disk).files[name := []])
    {
      hide CopyName, Safe;
      index' := index;
      name := CopyName(dir, index', last);
      index' := index' + 1;
      ghost var tried: set<string> := {};
      while name in disk.files
        invariant index < index' && name == CopyName(dir, index' - 1, last)
        invariant tried <= disk.files.Keys
        invariant forall t :: t in tried ==> exists k: nat :: k < index' - 1 && t == CopyName(dir, k, last)
        invariant disk == old(disk) && start == old(start) && history == old(history)
        decreases disk.files.Keys - tried
      {
        if name in tried {
          var k: nat :| k < index' - 1 && name == CopyName(dir, k, last);
          CopyNameInjective(dir, k, index' - 1, last);
          assert false;
        }
        tried := tried + {name};
        name := CopyName(dir, index', last);
        index' := index' + 1;
      }
      GrowBy(dir, start, disk, name, []);
      Become(disk.(files := disk.files[name := []]));
    }

    /** Copy a file into the trace directory, piece by piece. */
    method CopyIntoTrace(file: string, index: nat) returns (name: string, index': nat)
      requires Complete(dir, start) && Grown(start, disk) && AlwaysSafe() && file in disk.files
      modifies this
      ensures start == old(start) && Grown(start, disk) && AlwaysSafe()
      ensures name !in old(disk.files) && IsCopyName(name, dir)
      ensures exists k: nat :: name == dir + "/mmap_pack_" + Decimal(k) + "_" + StripHardlink(Basename(file))
      ensures disk == old(disk).(files := old(disk).files[name := old(disk).files[file]])
    {
      hide Complete, Grown, CopyName, IsCopyName, Safe, Decimal, Basename, StripHardlink;
      GrownKeys(start, disk);
      name, index' := CreateCopy(StripHardlink(Basename(file)), index);
      CopyNameInside(dir, index' - 1, file);
      GrownKeys(start, old(disk));
      var content := disk.files[file];
      var written: nat := 0;
      assert content[..0] == [];
      while written < |content|
        invariant written <= |content| && start == old(start) && Grown(start, disk) && AlwaysSafe()
        invariant disk == old(disk).(files := old(disk).files[name := content[..written]])
      {
        var w: nat :| 0 < w <= |content| - written;
        GrowBy(dir, start, disk, name, content[..written + w]);
        assert disk.files[name := content[..written + w]] == old(disk).files[name := content[..written + w]];
        Become(disk.(files := disk.files[name := content[..written + w]]));
        written := written + w;
      }
      assert content[..written] == content;
    }

    /** Give every content its home. */
    method CopyAll(names: map<Content, string>) returns (homes: map<Content, string>)
      requires Complete(dir, start) && disk == start && AlwaysSafe()
      requires forall c :: c in names ==> names[c] in start.files && start.files[names[c]] == c
      modifies this
      ensures start == old(start) && Grown(start, disk) && AlwaysSafe() && disk.packed == start.packed
      ensures homes.Keys == names.Keys && Housed(dir, start.files, disk.files, names, homes)
    {
      hide Complete, Plain, Inside, Grown, Housed, Safe;
      homes := map[];
      NoneHoused(dir, start, names);
      var left, index := names.Keys, 0;
      while left != {}
        invariant left <= names.Keys && homes.Keys == names.Keys - left && disk.packed == start.packed
        invariant start == old(start) && Grown(start, disk) && AlwaysSafe()
        invariant Housed(dir, start.files, disk.files, names, homes)
        decreases |left|
      {
        var c: Content :| c in left;
        left := left - {c};
        GrownAt(start, disk, names[c]);
        var name := names[c];
        if !Plain(names[c], dir) {
          HousedAfter(dir, start, disk, names, homes, c);
          name, index := CopyIntoTrace(names[c], index);
        } else {
          HousedPlain(dir, start, disk, names, homes, c);
        }
        homes := homes[c := name];
      }
    }

    // ---- the new mmaps file

    /**
     * Write the new mmaps file and switch to it; a left-over from an interrupted run stops the
     * command. The switch is safe exactly if every new name is that of a file with the right bytes.
     */
    method RewriteMmaps(fileMap: map<string, string>, ghost info: map<string, Content>) returns (ok: bool)
      requires Complete(dir, start) && Grown(start, disk) && AlwaysSafe()
      requires Gathered(dir, start, info) && Renamed(info, fileMap)
      modifies this
      ensures start == old(start) && ok == old(disk).packed.None?
      ensures !ok ==> disk == old(disk) && AlwaysSafe()
      ensures ok ==> disk == Disk(old(disk).files, Rewritten(dir, start.mmaps, fileMap), None)
      ensures ok ==> (Safe(dir, start, disk) <==> AllFiled(dir, old(disk).files, info, fileMap))
      ensures ok ==> (AlwaysSafe() <==> Safe(dir, start, disk))
    {
      hide Complete, Gathered, Renamed, AllFiled, Safe, Rewritten;
      SamePlace(dir, start, disk, None);
      if disk.packed.Some? {
        return false;
      }
      var mmaps := disk.mmaps;
      SamePlace(dir, start, disk, Some([]));
      Become(disk.(packed := Some([])));
      RewrittenPrefix(dir, mmaps, fileMap, 0);
      for i := 0 to |mmaps|
        invariant disk == Disk(old(disk).files, mmaps, Some(Rewritten(dir, mmaps[..i], fileMap)))
        invariant start == old(start) && AlwaysSafe() && Grown(start, disk)
      {
        RewrittenPrefix(dir, mmaps, fileMap, i);
        var next := disk.packed.value + [NewRecord(dir, fileMap, mmaps[i])];
        SamePlace(dir, start, disk, Some(next));
        Become(disk.(packed := Some(next)));
      }
      assert mmaps[..|mmaps|] == mmaps;
      SwitchSafe(dir, start, disk, info, fileMap);
      Become(Disk(disk.files, disk.packed.value, None));
      ok := true;
    }

    /** Delete the "mmap_" files that nothing refers to any more. */
    method DeleteUnnecessaryFiles(fileMap: map<string, string>)
      requires forall i :: 0 <= i < |disk.mmaps| && disk.mmaps[i].FileRecord? ==>
                 disk.mmaps[i].name in fileMap.Values && '/' !in disk.mmaps[i].name
      requires AlwaysSafe() ==> Safe(dir, start, disk)
      modifies this
      ensures start == old(start) && (AlwaysSafe() <==> old(AlwaysSafe())) && disk.mmaps == old(disk).mmaps
      ensures Safe(dir, start, disk) <==> old(Safe(dir, start, disk))
      ensures forall f :: f in disk.files <==> f in old(disk).files && !Unneeded(dir, fileMap, f)
      ensures forall f :: f in disk.files ==> disk.files[f] == old(disk).files[f]
    {
      hide Safe, Inside, Unneeded;
      var names := set f | f in disk.files.Keys && Unneeded(dir, fileMap, f);
      var left := names;
      while left != {}
        invariant left <= names && start == old(start) && (AlwaysSafe() <==> old(AlwaysSafe()))
        invariant Safe(dir, start, disk) <==> old(Safe(dir, start, disk))
        invariant disk.mmaps == old(disk).mmaps
        invariant forall f :: f in disk.files <==> f in old(disk).files && f !in names - left
        invariant forall f :: f in disk.files ==> disk.files[f] == old(disk).files[f]
        decreases |left|
      {
        var f: string :| f in left;
        left := left - {f};
        DeleteSafe(dir, start, disk, fileMap, f);
        Become(disk.(files := disk.files - {f}));
      }
    }

    /**
     * The whole command. Up to the switch every moment is safe. If it comes to the switch, every
     * moment of the run is safe if and only if the trace is sound, which can be told beforehand.
     */
    method PackTrace() returns (ok: bool)
      requires disk == start && history == []
      modifies this
      ensures start == old(start) && (ok <==> Readable(dir, start) && start.packed.None?)
      ensures !Readable(dir, start) ==> disk == start
      ensures !ok ==> AlwaysSafe() && disk.mmaps == start.mmaps
      ensures ok ==> (AlwaysSafe() <==> Sound(dir, start)) && Tidied(dir, start, disk) && Unlinked(dir, start, disk)
      ensures ok && Sound(dir, start) ==> Packed(dir, start, disk)
    {
      hide Readable, Gathered, Chosen, Housed, Renamed, AllFiled, Safe, Plain, Inside, Rewritten, Packed, Unneeded,
        Grown, Sound, Tidied, Unlinked;
      var gathered := GatherFileInfo();
      if gathered.None? {
        return false;
      }
      ReadableIsComplete(dir, disk);
      var info := gathered.value;
      var names := ChooseNames(info);
      ChosenFiles(dir, start, info, names);
      var homes := CopyAll(names);
      var fileMap := map p | p in info :: Basename(homes[info[p]]);
      HomesRenamed(info, homes, fileMap);
      FiledExactly(dir, start, disk, info, names, homes, fileMap);
      GrownKeys(start, disk);
      ghost var files := disk.files;
      ok := RewriteMmaps(fileMap, info);
      if ok {
        RewrittenNames(dir, start, info, fileMap, disk);
        ghost var before := disk;
        DeleteUnnecessaryFiles(fileMap);
        TidiedUp(dir, start, before, disk, info, names, homes, fileMap);
        LinksGone(dir, start, before.files, disk, info, names, homes, fileMap);
        if Sound(dir, start) {
          PackedUp(dir, start, before, disk, info, names, homes, fileMap);
        }
      }
    }
  }

  // ---- what packing achieves

  function ContentOf(dir: string, d: Disk, i: nat): Option<Content> {
    if i < |d.mmaps| && d.mmaps[i].FileRecord? && Resolve(dir, d.mmaps[i].name) in d.files
    then Some(d.files[Resolve(dir, d.mmaps[i].name)]) else None
  }

  /** Some record names a plain file of the trace directory with this content. */
  predicate HasPlain(dir: string, d: Disk, c: Option<Content>) {
    exists i: nat :: i < |d.mmaps| && d.mmaps[i].FileRecord? && Plain(Resolve(dir, d.mmaps[i].name), dir)
                     && ContentOf(dir, d, i) == c
  }

  /** Some record names a file with this content, and none a plain one. */
  ghost predicate NeedsCopy(dir: string, d: Disk, c: Content) {
    (exists i: nat :: ContentOf(dir, d, i) == Some(c)) && !HasPlain(dir, d, Some(c))
  }

  /** Every in-trace name of the content is that of a hard link. */
  predicate OnlyLinked(dir: string, d: Disk, c: Content) {
    forall i :: 0 <= i < |d.mmaps| && d.mmaps[i].FileRecord? ==>
      var path := Resolve(dir, d.mmaps[i].name);
      path in d.files && d.files[path] == c && dir <= path ==> "mmap_hardlink_" <= Basename(path)
  }

  /** Hard links are given up: no name and no file of the directory is one, and their contents have new files. */
  predicate Unlinked(dir: string, start: Disk, end: Disk) {
    && |end.mmaps| == |start.mmaps|
    && (forall i :: 0 <= i < |end.mmaps| && end.mmaps[i].FileRecord? ==> !("mmap_hardlink_" <= end.mmaps[i].name))
    && (forall f :: f in end.files && Inside(f, dir) ==> !("mmap_hardlink_" <= Basename(f)))
    && (forall i: nat :: i < |end.mmaps| && ContentOf(dir, start, i).Some?
                         && OnlyLinked(dir, start, ContentOf(dir, start, i).value) ==>
          end.mmaps[i].FileRecord? && Resolve(dir, end.mmaps[i].name) !in start.files)
  }

  /**
   * Sound or not: new names have no slash, no unreferenced "mmap_" file is left, there is a new file
   * only for a content that needs a copy, and a record whose content has a plain name is renamed to
   * the last component of the first one.
   */
  ghost predicate Tidied(dir: string, start: Disk, end: Disk) {
    && |end.mmaps| == |start.mmaps|
    && (forall i :: 0 <= i < |end.mmaps| && end.mmaps[i].FileRecord? ==> '/' !in end.mmaps[i].name)
    && (forall f :: f in end.files && Inside(f, dir) && "mmap_" <= Basename(f) ==> Named(dir, end.mmaps, f))
    && (forall f :: f in end.files && f !in start.files ==> NeedsCopy(dir, start, end.files[f]))
    && (forall i: nat, p ::
          i < |end.mmaps| && IsLeastPlain(dir, start, p) && ContentOf(dir, start, i) == Some(start.files[p]) ==>
            end.mmaps[i].FileRecord? && end.mmaps[i].name == Basename(p))
  }

  /** On a sound trace: safe, one name for each content, and a copy just where no plain file had the content. */
  ghost predicate Packed(dir: string, start: Disk, end: Disk) {
    && Safe(dir, start, end)
    && (forall i: nat, j: nat ::
          i < |end.mmaps| && j < |end.mmaps| && end.mmaps[i].FileRecord? && end.mmaps[j].FileRecord? ==>
            (end.mmaps[i].name == end.mmaps[j].name <==> ContentOf(dir, start, i) == ContentOf(dir, start, j)))
    && (forall i: nat :: i < |end.mmaps| && end.mmaps[i].FileRecord? ==>
          (Resolve(dir, end.mmaps[i].name) in start.files <==> HasPlain(dir, start, ContentOf(dir, start, i))))
  }

  lemma ReadableIsComplete(dir: string, d: Disk)
    requires Readable(dir, d)
    ensures Complete(dir, d)
  {
  }

  lemma ChosenFiles(dir: string, d: Disk, info: map<string, Content>, names: map<Content, string>)
    requires Gathered(dir, d, info) && Chosen(dir, info, names)
    ensures forall c :: c in names ==> names[c] in d.files && d.files[names[c]] == c
    ensures forall p :: p in info ==> info[p] in names
  {
    hide Plain, Named;
  }

  lemma HomesRenamed(info: map<string, Content>, homes: map<Content, string>, fileMap: map<string, string>)
    requires forall p :: p in info ==> info[p] in homes
    requires fileMap.Keys == info.Keys && forall p :: p in info ==> fileMap[p] == Basename(homes[info[p]])
    ensures Renamed(info, fileMap)
  {
    hide Basename;
    forall p | p in info
      ensures '/' !in fileMap[p]
    {
      BasenameHasNoSlash(homes[info[p]]);
    }
  }

  /** The first plain name of a content is its representative. */
  lemma LeastIsChosen(dir: string, start: Disk, info: map<string, Content>, names: map<Content, string>, p: string)
    requires Gathered(dir, start, info) && Chosen(dir, info, names) && IsLeastPlain(dir, start, p)
    ensures p in info && info[p] == start.files[p] && info[p] in names && names[info[p]] == p
  {
    hide Plain, Named, Before;
    var n := names[info[p]];
    assert Leads(dir, info, n);
    Trichotomy(n, p);
  }

  lemma ChosenIsLeast(dir: string, start: Disk, info: map<string, Content>, names: map<Content, string>, c: Content)
    requires Gathered(dir, start, info) && Chosen(dir, info, names) && c in names && Plain(names[c], dir)
    ensures IsLeastPlain(dir, start, names[c]) && start.files[names[c]] == c
  {
    hide Plain, Named, Before;
    assert Leads(dir, info, names[c]);
  }

  lemma FiledAtLeast(dir: string, start: Disk, now: Disk, info: map<string, Content>, names: map<Content, string>,
                     homes: map<Content, string>, fileMap: map<string, string>, p: string)
    requires Gathered(dir, start, info) && Chosen(dir, info, names) && Grown(start, now) && IsLeastPlain(dir, start, p)
    requires homes.Keys == names.Keys && Housed(dir, start.files, now.files, names, homes)
    requires fileMap.Keys == info.Keys
    requires forall q :: q in info ==> info[q] in homes && fileMap[q] == Basename(homes[info[q]])
    requires AllFiled(dir, now.files, info, fileMap)
    ensures FileIn(dir, start.files, Basename(p), start.files[p])
  {
    hide Basename, Inside, Gathered, Chosen;
    LeastIsChosen(dir, start, info, names, p);
    assert homes[info[p]] == p;
    assert FileIn(dir, now.files, fileMap[p], info[p]);
  }

  /** New names lead to the right files exactly if the trace is sound. */
  lemma FiledExactly(dir: string, start: Disk, now: Disk, info: map<string, Content>, names: map<Content, string>,
                     homes: map<Content, string>, fileMap: map<string, string>)
    requires Gathered(dir, start, info) && Chosen(dir, info, names) && Grown(start, now)
    requires homes.Keys == names.Keys && Housed(dir, start.files, now.files, names, homes)
    requires fileMap.Keys == info.Keys
    requires forall p :: p in info ==> info[p] in homes && fileMap[p] == Basename(homes[info[p]])
    ensures AllFiled(dir, now.files, info, fileMap) <==> Sound(dir, start)
  {
    hide Basename, Gathered, Chosen, Plain, Named, Before;
    if AllFiled(dir, now.files, info, fileMap) {
      forall p | IsLeastPlain(dir, start, p)
        ensures FileIn(dir, start.files, Basename(p), start.files[p])
      {
        FiledAtLeast(dir, start, now, info, names, homes, fileMap, p);
      }
    }
    if Sound(dir, start) {
      forall p | p in info
        ensures FileIn(dir, now.files, fileMap[p], info[p])
      {
        if Plain(names[info[p]], dir) {
          ChosenIsLeast(dir, start, info, names, info[p]);
        }
      }
    }
  }

  lemma RewrittenNames(dir: string, start: Disk, info: map<string, Content>, fileMap: map<string, string>, now: Disk)
    requires Gathered(dir, start, info) && Renamed(info, fileMap)
    requires now.mmaps == Rewritten(dir, start.mmaps, fileMap)
    ensures forall i :: 0 <= i < |now.mmaps| && now.mmaps[i].FileRecord? ==>
              now.mmaps[i].name in fileMap.Values && '/' !in now.mmaps[i].name
  {
    hide Resolve, Gathered, Rewritten;
    forall i | 0 <= i < |now.mmaps| && now.mmaps[i].FileRecord?
      ensures now.mmaps[i].name in fileMap.Values && '/' !in now.mmaps[i].name
    {
      NewName(dir, start, info, fileMap, i);
      assert start.mmaps[i].FileRecord?;
      assert Resolve(dir, start.mmaps[i].name) in fileMap;
    }
  }

  /** A kept "mmap_" file is one that a record names. */
  lemma KeptIsNamed(dir: string, start: Disk, end: Disk, info: map<string, Content>, fileMap: map<string, string>,
                    f: string)
    requires Gathered(dir, start, info) && fileMap.Keys == info.Keys
    requires end.mmaps == Rewritten(dir, start.mmaps, fileMap)
    requires Inside(f, dir) && "mmap_" <= Basename(f) && !Unneeded(dir, fileMap, f)
    ensures Named(dir, end.mmaps, f)
  {
    hide Resolve, Rewritten;
    var p :| p in fileMap && fileMap[p] == Basename(f);
    assert Named(dir, start.mmaps, p);
    var i :| 0 <= i < |start.mmaps| && start.mmaps[i].FileRecord? && Resolve(dir, start.mmaps[i].name) == p;
    NewName(dir, start, info, fileMap, i);
    BasenameHasNoSlash(f);
    BasenameInside(dir, Basename(f));
    assert Resolve(dir, end.mmaps[i].name) == f;
  }

  lemma RenamedToLeast(dir: string, start: Disk, end: Disk, files: map<string, Content>, info: map<string, Content>,
                       names: map<Content, string>, homes: map<Content, string>, fileMap: map<string, string>, i: nat,
                       p: string)
    requires Gathered(dir, start, info) && Chosen(dir, info, names) && fileMap.Keys == info.Keys
    requires homes.Keys == names.Keys && Housed(dir, start.files, files, names, homes)
    requires forall q :: q in info ==> info[q] in homes && fileMap[q] == Basename(homes[info[q]])
    requires end.mmaps == Rewritten(dir, start.mmaps, fileMap) && i < |end.mmaps|
    requires IsLeastPlain(dir, start, p) && ContentOf(dir, start, i) == Some(start.files[p])
    ensures end.mmaps[i].FileRecord? && end.mmaps[i].name == Basename(p)
  {
    hide Resolve, Rewritten, Basename, Gathered, Chosen, Inside;
    NewName(dir, start, info, fileMap, i);
    LeastIsChosen(dir, start, info, names, p);
  }

  lemma TidiedUp(dir: string, start: Disk, before: Disk, end: Disk, info: map<string, Content>,
                 names: map<Content, string>, homes: map<Content, string>, fileMap: map<string, string>)
    requires Gathered(dir, start, info) && Chosen(dir, info, names) && fileMap.Keys == info.Keys
    requires homes.Keys == names.Keys && Housed(dir, start.files, before.files, names, homes)
    requires forall p :: p in info ==> info[p] in homes && fileMap[p] == Basename(homes[info[p]])
    requires end.mmaps == Rewritten(dir, start.mmaps, fileMap)
    requires forall f :: f in end.files <==> f in before.files && !Unneeded(dir, fileMap, f)
    requires forall f :: f in end.files ==> end.files[f] == before.files[f]
    requires forall i :: 0 <= i < |end.mmaps| && end.mmaps[i].FileRecord? ==> '/' !in end.mmaps[i].name
    ensures Tidied(dir, start, end)
  {
    hide Rewritten, Plain, Resolve, Gathered, Chosen, Housed, Inside, Unneeded, Named, ContentOf, Before, Basename,
      NeedsCopy;
    forall f | f in end.files && f !in start.files
      ensures NeedsCopy(dir, start, end.files[f])
    {
      NewIsCopy(dir, start, before.files, info, names, homes, f);
    }
    forall f | f in end.files && Inside(f, dir) && "mmap_" <= Basename(f)
      ensures Named(dir, end.mmaps, f)
    {
      KeptIsNamed(dir, start, end, info, fileMap, f);
    }
    forall i: nat, p |
      i < |end.mmaps| && IsLeastPlain(dir, start, p) && ContentOf(dir, start, i) == Some(start.files[p])
      ensures end.mmaps[i].FileRecord? && end.mmaps[i].name == Basename(p)
    {
      RenamedToLeast(dir, start, end, before.files, info, names, homes, fileMap, i, p);
    }
  }

  /** Homes have no hard link's name. */
  lemma HomeIsNoLink(dir: string, original: map<string, Content>, files: map<string, Content>,
                     names: map<Content, string>, homes: map<Content, string>, c: Content)
    requires Housed(dir, original, files, names, homes) && c in homes && '/' in names[c]
    ensures !("mmap_hardlink_" <= Basename(homes[c]))
  {
    hide Basename;
    if !Plain(names[c], dir) {
      CopyIsNoHardlink(Basename(homes[c]));
    }
  }

  lemma ResolvedHasSlash(dir: string, name: string)
    ensures '/' in Resolve(dir, name)
  {
    if !(name != [] && name[0] == '/') {
      assert (dir + "/" + name)[|dir|] == '/';
    }
  }

  lemma {:induction false} LinksGone(dir: string, start: Disk, files: map<string, Content>, end: Disk,
                                     info: map<string, Content>, names: map<Content, string>,
                                     homes: map<Content, string>, fileMap: map<string, string>)
    requires Gathered(dir, start, info) && Chosen(dir, info, names) && fileMap.Keys == info.Keys
    requires homes.Keys == names.Keys && Housed(dir, start.files, files, names, homes)
    requires forall p :: p in info ==> info[p] in homes && fileMap[p] == Basename(homes[info[p]])
    requires end.mmaps == Rewritten(dir, start.mmaps, fileMap) && Tidied(dir, start, end)
    ensures Unlinked(dir, start, end)
  {
    hide Resolve, Rewritten, Basename, Gathered, Chosen, Housed, Inside, ContentOf, OnlyLinked, NeedsCopy, IsLeastPlain;
    forall i | 0 <= i < |end.mmaps| && end.mmaps[i].FileRecord?
      ensures !("mmap_hardlink_" <= end.mmaps[i].name)
    {
      NoLinkName(dir, start, files, end, info, names, homes, fileMap, i);
    }
    forall f | f in end.files && Inside(f, dir)
      ensures !("mmap_hardlink_" <= Basename(f))
    {
      if "mmap_hardlink_" <= Basename(f) {
        LinkIsMmap(Basename(f));
        var k :| 0 <= k < |end.mmaps| && end.mmaps[k].FileRecord? && Resolve(dir, end.mmaps[k].name) == f;
        BasenameInside(dir, end.mmaps[k].name);
        assert false;
      }
    }
    forall i: nat |
      i < |end.mmaps| && ContentOf(dir, start, i).Some? && OnlyLinked(dir, start, ContentOf(dir, start, i).value)
      ensures end.mmaps[i].FileRecord? && Resolve(dir, end.mmaps[i].name) !in start.files
    {
      LinkedIsCopied(dir, start, files, end, info, names, homes, fileMap, i);
    }
  }

  lemma LinkIsMmap(base: string)
    requires "mmap_hardlink_" <= base
    ensures "mmap_" <= base
  {
    assert "mmap_" <= "mmap_hardlink_";
  }

  lemma NoLinkName(dir: string, start: Disk, files: map<string, Content>, end: Disk, info: map<string, Content>,
                   names: map<Content, string>, homes: map<Content, string>, fileMap: map<string, string>, i: nat)
    requires Gathered(dir, start, info) && Chosen(dir, info, names) && fileMap.Keys == info.Keys
    requires homes.Keys == names.Keys && Housed(dir, start.files, files, names, homes)
    requires forall p :: p in info ==> info[p] in homes && fileMap[p] == Basename(homes[info[p]])
    requires end.mmaps == Rewritten(dir, start.mmaps, fileMap) && i < |end.mmaps| && end.mmaps[i].FileRecord?
    ensures !("mmap_hardlink_" <= end.mmaps[i].name)
  {
    hide Resolve, Rewritten, Basename, Housed, Leads;
    NewName(dir, start, info, fileMap, i);
    var c := info[Resolve(dir, start.mmaps[i].name)];
    NamedHasSlash(dir, start, info, names[c]);
    HomeIsNoLink(dir, start.files, files, names, homes, c);
  }

  lemma NamedHasSlash(dir: string, start: Disk, info: map<string, Content>, p: string)
    requires Gathered(dir, start, info) && p in info
    ensures '/' in p
  {
    hide Resolve;
    var k :| 0 <= k < |start.mmaps| && start.mmaps[k].FileRecord? && Resolve(dir, start.mmaps[k].name) == p;
    ResolvedHasSlash(dir, start.mmaps[k].name);
  }

  /** A content with hard links only goes to a copy. */
  lemma LinkedIsCopied(dir: string, start: Disk, files: map<string, Content>, end: Disk, info: map<string, Content>,
                       names: map<Content, string>, homes: map<Content, string>, fileMap: map<string, string>, i: nat)
    requires Gathered(dir, start, info) && Chosen(dir, info, names) && fileMap.Keys == info.Keys
    requires homes.Keys == names.Keys && Housed(dir, start.files, files, names, homes)
    requires forall p :: p in info ==> info[p] in homes && fileMap[p] == Basename(homes[info[p]])
    requires end.mmaps == Rewritten(dir, start.mmaps, fileMap) && i < |end.mmaps|
    requires ContentOf(dir, start, i).Some? && OnlyLinked(dir, start, ContentOf(dir, start, i).value)
    ensures end.mmaps[i].FileRecord? && Resolve(dir, end.mmaps[i].name) !in start.files
  {
    hide Resolve, Rewritten, Basename, Leads, OnlyLinked;
    NewName(dir, start, info, fileMap, i);
    var p := Resolve(dir, start.mmaps[i].name);
    var c := info[p];
    LinkedIsNotPlain(dir, start, info, names[c], c);
    BasenameHasNoSlash(homes[c]);
    BasenameInside(dir, Basename(homes[c]));
  }

  lemma LinkedIsNotPlain(dir: string, start: Disk, info: map<string, Content>, p: string, c: Content)
    requires Gathered(dir, start, info) && OnlyLinked(dir, start, c) && p in info && info[p] == c
    ensures !Plain(p, dir)
  {
    hide Resolve, Basename;
    NamedHasSlash(dir, start, info, p);
    var k :| 0 <= k < |start.mmaps| && start.mmaps[k].FileRecord? && Resolve(dir, start.mmaps[k].name) == p;
  }

  lemma NewIsCopy(dir: string, start: Disk, files: map<string, Content>, info: map<string, Content>,
                  names: map<Content, string>, homes: map<Content, string>, f: string)
    requires Gathered(dir, start, info) && Chosen(dir, info, names) && f in files && f !in start.files
    requires homes.Keys == names.Keys && Housed(dir, start.files, files, names, homes)
    ensures NeedsCopy(dir, start, files[f])
  {
    hide Plain, Inside, Resolve, HasPlain, Leads;
    var c := files[f];
    assert c in names && homes[c] == f && names[c] in info;
    assert Named(dir, start.mmaps, names[c]);
    var i :| 0 <= i < |start.mmaps| && start.mmaps[i].FileRecord? && Resolve(dir, start.mmaps[i].name) == names[c];
    assert ContentOf(dir, start, i) == Some(c);
    PlainChosen(dir, start, info, names, c);
  }

  /** Two records share a name exactly when they shared their bytes. */
  lemma SharedNames(dir: string, start: Disk, end: Disk, info: map<string, Content>, fileMap: map<string, string>,
                    i: nat, j: nat)
    requires Gathered(dir, start, info) && Renamed(info, fileMap) && Safe(dir, start, end)
    requires end.mmaps == Rewritten(dir, start.mmaps, fileMap)
    requires i < |end.mmaps| && j < |end.mmaps| && end.mmaps[i].FileRecord? && end.mmaps[j].FileRecord?
    ensures end.mmaps[i].name == end.mmaps[j].name <==> ContentOf(dir, start, i) == ContentOf(dir, start, j)
  {
    hide Resolve, Rewritten, Gathered, FileIn;
    NewName(dir, start, info, fileMap, i);
    NewName(dir, start, info, fileMap, j);
    assert RecordSafe(dir, start, end, i) && RecordSafe(dir, start, end, j);
  }

  lemma PlainChosen(dir: string, start: Disk, info: map<string, Content>, names: map<Content, string>, c: Content)
    requires Gathered(dir, start, info) && Chosen(dir, info, names) && c in names
    ensures Plain(names[c], dir) <==> HasPlain(dir, start, Some(c))
  {
    hide Resolve, Plain, Before;
    if Plain(names[c], dir) {
      assert Named(dir, start.mmaps, names[c]);
      var i :| 0 <= i < |start.mmaps| && start.mmaps[i].FileRecord? && Resolve(dir, start.mmaps[i].name) == names[c];
      assert ContentOf(dir, start, i) == Some(c);
    }
    if HasPlain(dir, start, Some(c)) {
      var i: nat :| i < |start.mmaps| && start.mmaps[i].FileRecord? && Plain(Resolve(dir, start.mmaps[i].name), dir)
        && ContentOf(dir, start, i) == Some(c);
      var p := Resolve(dir, start.mmaps[i].name);
      assert Named(dir, start.mmaps, p);
      assert info[p] == c;
    }
  }

  /** A file was copied exactly when no plain file had its bytes. */
  lemma CopiedExactly(dir: string, start: Disk, files: map<string, Content>, end: Disk, info: map<string, Content>,
                      names: map<Content, string>, homes: map<Content, string>, fileMap: map<string, string>, i: nat)
    requires Gathered(dir, start, info) && Chosen(dir, info, names) && fileMap.Keys == info.Keys && Sound(dir, start)
    requires homes.Keys == names.Keys && Housed(dir, start.files, files, names, homes)
    requires forall p :: p in info ==> info[p] in homes && fileMap[p] == Basename(homes[info[p]])
    requires end.mmaps == Rewritten(dir, start.mmaps, fileMap) && i < |end.mmaps| && end.mmaps[i].FileRecord?
    ensures Resolve(dir, end.mmaps[i].name) in start.files <==> HasPlain(dir, start, ContentOf(dir, start, i))
  {
    hide Rewritten, HasPlain, Plain, Resolve, IsLeastPlain, Gathered, Chosen;
    NewName(dir, start, info, fileMap, i);
    var c := info[Resolve(dir, start.mmaps[i].name)];
    PlainChosen(dir, start, info, names, c);
    BasenameHasNoSlash(homes[c]);
    BasenameInside(dir, Basename(homes[c]));
    assert Resolve(dir, end.mmaps[i].name) == dir + "/" + Basename(homes[c]);
    assert ContentOf(dir, start, i) == Some(c);
    if Plain(names[c], dir) {
      ChosenIsLeast(dir, start, info, names, c);
    }
  }

  lemma PackedUp(dir: string, start: Disk, before: Disk, end: Disk, info: map<string, Content>,
                 names: map<Content, string>, homes: map<Content, string>, fileMap: map<string, string>)
    requires Gathered(dir, start, info) && Chosen(dir, info, names) && Renamed(info, fileMap) && Sound(dir, start)
    requires fileMap.Keys == info.Keys && homes.Keys == names.Keys
    requires Housed(dir, start.files, before.files, names, homes)
    requires forall p :: p in info ==> info[p] in homes && fileMap[p] == Basename(homes[info[p]])
    requires end.mmaps == Rewritten(dir, start.mmaps, fileMap) && Safe(dir, start, end)
    ensures Packed(dir, start, end)
  {
    hide Rewritten, HasPlain, Plain, Resolve, Gathered, Chosen, Renamed, Housed, Safe, Sound, ContentOf, Basename;
    forall i: nat, j: nat | i < |end.mmaps| && j < |end.mmaps| && end.mmaps[i].FileRecord? && end.mmaps[j].FileRecord?
      ensures end.mmaps[i].name == end.mmaps[j].name <==> ContentOf(dir, start, i) == ContentOf(dir, start, j)
    {
      SharedNames(dir, start, end, info, fileMap, i, j);
    }
    forall i: nat | i < |end.mmaps| && end.mmaps[i].FileRecord?
      ensures Resolve(dir, end.mmaps[i].name) in start.files <==> HasPlain(dir, start, ContentOf(dir, start, i))
    {
      CopiedExactly(dir, start, before.files, end, info, names, homes, fileMap, i);
    }
  }

  lemma NoneHoused(dir: string, start: Disk, names: map<Content, string>)
    ensures Housed(dir, start.files, start.files, names, map[]) && Grown(start, start)
  {
  }

  lemma GrownAt(start: Disk, now: Disk, name: string)
    requires Grown(start, now) && name in start.files
    ensures name in now.files && now.files[name] == start.files[name]
  {
  }

  lemma HousedPlain(dir: string, start: Disk, now: Disk, names: map<Content, string>, homes: map<Content, string>,
                    c: Content)
    requires Housed(dir, start.files, now.files, names, homes) && c in names && c !in homes && Plain(names[c], dir)
    requires names[c] in now.files && now.files[names[c]] == c
    ensures Housed(dir, start.files, now.files, names, homes[c := names[c]])
  {
    hide Plain, Inside;
  }

  /** Whatever fresh name the copy of `c` gets, the homes stay as they are. */
  lemma HousedAfter(dir: string, start: Disk, now: Disk, names: map<Content, string>, homes: map<Content, string>,
                    c: Content)
    requires Grown(start, now) && Housed(dir, start.files, now.files, names, homes)
    requires c in names && c !in homes && !Plain(names[c], dir)
    ensures forall name :: name !in now.files && IsCopyName(name, dir) ==>
              Housed(dir, start.files, now.files[name := c], names, homes[c := name])
  {
    hide Plain, Inside;
    forall name | name !in now.files && IsCopyName(name, dir)
      ensures Housed(dir, start.files, now.files[name := c], names, homes[c := name])
    {
    }
  }

  lemma GrownKeys(start: Disk, now: Disk)
    requires Grown(start, now)
    ensures start.files.Keys <= now.files.Keys && now.mmaps == start.mmaps
  {
  }

  /** Writing a file that was not there at the start changes nothing that was. */
  lemma GrowBy(dir: string, start: Disk, now: Disk, name: string, content: Content)
    requires Complete(dir, start) && Grown(start, now) && name !in start.files
    ensures Grown(start, now.(files := now.files[name := content]))
    ensures Safe(dir, start, now.(files := now.files[name := content]))
  {
    hide Complete, Safe;
    GrownIsSafe(dir, start, now.(files := now.files[name := content]));
  }

  lemma SamePlace(dir: string, start: Disk, now: Disk, packed: Option<seq<Record>>)
    requires Complete(dir, start) && Grown(start, now)
    ensures Grown(start, now.(packed := packed)) && Safe(dir, start, now.(packed := packed))
  {
    GrownIsSafe(dir, start, now.(packed := packed));
  }

  // ---- the switch

  /** Each named file has a new name without slashes, one for each content. */
  ghost predicate Renamed(info: map<string, Content>, fileMap: map<string, string>) {
    && fileMap.Keys == info.Keys
    && (forall p :: p in info ==> '/' !in fileMap[p])
    && (forall p, q :: p in info && q in info && info[p] == info[q] ==> fileMap[p] == fileMap[q])
  }

  /** Under every new name the directory has a file with the right bytes. */
  ghost predicate AllFiled(dir: string, files: map<string, Content>, info: map<string, Content>,
                           fileMap: map<string, string>)
  {
    forall p :: p in info ==> p in fileMap && FileIn(dir, files, fileMap[p], info[p])
  }

  function NewRecord(dir: string, fileMap: map<string, string>, r: Record): Record {
    match r
    case OtherRecord(_) => r
    case FileRecord(name, size, info) =>
      if Resolve(dir, name) in fileMap then FileRecord(fileMap[Resolve(dir, name)], size, info) else r
  }

  function Rewritten(dir: string, records: seq<Record>, fileMap: map<string, string>): (r: seq<Record>)
    ensures |r| == |records|
  {
    seq(|records|, i requires 0 <= i < |records| => NewRecord(dir, fileMap, records[i]))
  }

  lemma RewrittenPrefix(dir: string, records: seq<Record>, fileMap: map<string, string>, i: nat)
    requires i <= |records|
    ensures Rewritten(dir, records[..0], fileMap) == []
    ensures i < |records| ==>
              Rewritten(dir, records[..i + 1], fileMap) ==
              Rewritten(dir, records[..i], fileMap) + [NewRecord(dir, fileMap, records[i])]
  {
  }

  /** What becomes of record `i`. */
  lemma NewName(dir: string, start: Disk, info: map<string, Content>, fileMap: map<string, string>, i: nat)
    requires Gathered(dir, start, info) && fileMap.Keys == info.Keys && i < |start.mmaps|
    ensures start.mmaps[i].OtherRecord? ==> Rewritten(dir, start.mmaps, fileMap)[i] == start.mmaps[i]
    ensures start.mmaps[i].FileRecord? ==>
              var p := Resolve(dir, start.mmaps[i].name);
              && p in info && p in start.files && info[p] == start.files[p]
              && Rewritten(dir, start.mmaps, fileMap)[i] == start.mmaps[i].(name := fileMap[p])
  {
    hide Resolve;
    if start.mmaps[i].FileRecord? {
      assert Named(dir, start.mmaps, Resolve(dir, start.mmaps[i].name));
    }
  }

  /** After the switch, record `i` is safe exactly if its new name is that of a file with its bytes. */
  lemma SwitchRecord(dir: string, start: Disk, now: Disk, info: map<string, Content>, fileMap: map<string, string>,
                     i: nat)
    requires Gathered(dir, start, info) && Renamed(info, fileMap) && i < |start.mmaps|
    requires now.mmaps == Rewritten(dir, start.mmaps, fileMap)
    ensures RecordSafe(dir, start, now, i) <==>
            (start.mmaps[i].FileRecord? ==>
               var p := Resolve(dir, start.mmaps[i].name); p in info && FileIn(dir, now.files, fileMap[p], info[p]))
  {
    hide Gathered, Rewritten;
    NewName(dir, start, info, fileMap, i);
    if start.mmaps[i].FileRecord? {
      var p := Resolve(dir, start.mmaps[i].name);
      BasenameInside(dir, fileMap[p]);
    }
  }

  lemma SwitchSafe(dir: string, start: Disk, now: Disk, info: map<string, Content>, fileMap: map<string, string>)
    requires Complete(dir, start) && Grown(start, now) && Gathered(dir, start, info) && Renamed(info, fileMap)
    ensures Safe(dir, start, Disk(now.files, Rewritten(dir, start.mmaps, fileMap), None)) <==>
            AllFiled(dir, now.files, info, fileMap)
  {
    hide Resolve, FileIn, RecordSafe, Complete, Rewritten;
    var next := Disk(now.files, Rewritten(dir, start.mmaps, fileMap), None);
    forall i | 0 <= i < |start.mmaps|
      ensures RecordSafe(dir, start, next, i) <==>
              (start.mmaps[i].FileRecord? ==>
                 var p := Resolve(dir, start.mmaps[i].name); p in info && FileIn(dir, now.files, fileMap[p], info[p]))
    {
      SwitchRecord(dir, start, next, info, fileMap, i);
    }
    forall p | p in info && Safe(dir, start, next)
      ensures FileIn(dir, now.files, fileMap[p], info[p])
    {
      assert Named(dir, start.mmaps, p);
      var i :| 0 <= i < |start.mmaps| && start.mmaps[i].FileRecord? && Resolve(dir, start.mmaps[i].name) == p;
      assert RecordSafe(dir, start, next, i);
    }
    forall i | 0 <= i < |start.mmaps| && start.mmaps[i].FileRecord?
      ensures Resolve(dir, start.mmaps[i].name) in info
    {
      assert Named(dir, start.mmaps, Resolve(dir, start.mmaps[i].name));
    }
  }

  // ---- deleting

  predicate Unneeded(dir: string, fileMap: map<string, string>, f: string) {
    Inside(f, dir) && "mmap_" <= Basename(f) && Basename(f) !in fileMap.Values
  }

  /** Deleting such a file neither harms nor mends anything. */
  lemma DeleteSafe(dir: string, start: Disk, now: Disk, fileMap: map<string, string>, f: string)
    requires Unneeded(dir, fileMap, f)
    requires forall i :: 0 <= i < |now.mmaps| && now.mmaps[i].FileRecord? ==>
               now.mmaps[i].name in fileMap.Values && '/' !in now.mmaps[i].name
    ensures Safe(dir, start, now.(files := now.files - {f})) <==> Safe(dir, start, now)
  {
    var next := now.(files := now.files - {f});
    if |now.mmaps| == |start.mmaps| {
      forall i | 0 <= i < |start.mmaps|
        ensures RecordSafe(dir, start, next, i) <==> RecordSafe(dir, start, now, i)
      {
        if now.mmaps[i].FileRecord? {
          BasenameInside(dir, now.mmaps[i].name);
        }
      }
    }
  }

  /** The names seen come before those left, and each content has its first plain name seen, if any. */
  ghost predicate Sofar(dir: string, info: map<string, Content>, left: set<string>, names: map<Content, string>) {
    && left <= info.Keys
    && (forall c :: c in names ==> names[c] in info && names[c] !in left && info[names[c]] == c)
    && (forall p :: p in info && p !in left ==> info[p] in names)
    && (forall p, q :: p in info && p !in left && q in left ==> Before(p, q))
    && (forall p :: p in info && p !in left && Plain(p, dir) ==>
          Plain(names[info[p]], dir) && (p == names[info[p]] || Before(names[info[p]], p)))
  }

  lemma SofarNone(dir: string, info: map<string, Content>)
    ensures Sofar(dir, info, info.Keys, map[])
  {
  }

  lemma SofarStep(dir: string, info: map<string, Content>, left: set<string>, names: map<Content, string>, p: string)
    requires Sofar(dir, info, left, names) && IsLeast(left, p)
    ensures p in left && p in info
    ensures Sofar(dir, info, left - {p},
                  if info[p] in names && Plain(names[info[p]], dir) then names else names[info[p] := p])
  {
    hide Plain, Before;
    var names' := if info[p] in names && Plain(names[info[p]], dir) then names else names[info[p] := p];
    forall q | q in info && q !in left - {p} && Plain(q, dir)
      ensures Plain(names'[info[q]], dir) && (q == names'[info[q]] || Before(names'[info[q]], q))
    {
    }
  }

  lemma SofarAll(dir: string, info: map<string, Content>, names: map<Content, string>)
    requires Sofar(dir, info, {}, names)
    ensures Chosen(dir, info, names)
  {
    hide Plain, Before;
    forall c | c in names
      ensures Leads(dir, info, names[c]) || forall p :: p in info && info[p] == c ==> !Plain(p, dir)
    {
    }
  }

  lemma NothingNamed(dir: string, records: seq<Record>)
    ensures forall p :: !Named(dir, records[..0], p)
  {
  }

  lemma NamedSnoc(dir: string, records: seq<Record>, i: nat)
    requires i < |records|
    ensures forall p :: Named(dir, records[..i + 1], p) <==>
              Named(dir, records[..i], p) || (records[i].FileRecord? && Resolve(dir, records[i].name) == p)
  {
    hide Resolve;
    forall p
      ensures Named(dir, records[..i + 1], p) <==>
              Named(dir, records[..i], p) || (records[i].FileRecord? && Resolve(dir, records[i].name) == p)
    {
      if Named(dir, records[..i], p) {
        var k :| 0 <= k < i && records[..i][k].FileRecord? && Resolve(dir, records[..i][k].name) == p;
        assert records[..i + 1][k] == records[..i][k];
      }
      if records[i].FileRecord? && Resolve(dir, records[i].name) == p {
        assert records[..i + 1][i] == records[i];
      }
      if Named(dir, records[..i + 1], p) {
        var k :| 0 <= k < i + 1 && records[..i + 1][k].FileRecord? && Resolve(dir, records[..i + 1][k].name) == p;
        assert k < i ==> records[..i + 1][k] == records[..i][k];
      }
    }
  }

  lemma SiblingHasPlain(c: Content)
    ensures !NeedsCopy("/t/a", SIBLING, c)
  {
    hide Basename, Resolve, Plain;
    SiblingNames();
    var dir := "/t/a";
    forall i: nat | ContentOf(dir, SIBLING, i) == Some(c)
      ensures HasPlain(dir, SIBLING, Some(c))
    {
      assert SIBLING.mmaps[0].FileRecord? && Plain(Resolve(dir, SIBLING.mmaps[0].name), dir);
      assert ContentOf(dir, SIBLING, 0) == Some(c);
    }
  }

  /** The record of the sibling's file ends up naming a file that is not there. */
  method PackSibling() returns (t: TraceDirectory)
    ensures fresh(t) && t.start == SIBLING && !t.AlwaysSafe()
    ensures |t.disk.mmaps| == 1 && t.disk.mmaps[0].FileRecord? && t.disk.mmaps[0].name == "x"
    ensures Resolve("/t/a", "x") == "/t/a/x" && "/t/a/x" !in t.disk.files
  {
    hide Readable, Sound, Safe, Packed, NeedsCopy, IsLeastPlain, Basename, Resolve;
    SiblingIsUnsound();
    t := new TraceDirectory("/t/a", SIBLING);
    var _ := t.PackTrace();
    SiblingNames();
    SiblingLeast();
    assert ContentOf("/t/a", SIBLING, 0) == Some(SIBLING.files["/t/ab/x"]);
    assert t.disk.mmaps[0].name == "x";
    assert "/t/a/x" !in SIBLING.files;
    if "/t/a/x" in t.disk.files {
      SiblingHasPlain(t.disk.files["/t/a/x"]);
    }
  }
}
