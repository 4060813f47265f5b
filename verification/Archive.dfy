/** The read-only file surface of ruby_syscall_fs.c over a flat archive of named
    files.  Looking a name up finds the first entry of exactly that name, which is
    the assumed contract of the archive library. */
module Archive {
  import opened Errno
  import opened Options
  import opened Bytes

  /** The archive format records the size of a file in 32 bits. */
  type FileData = d: seq<byte> | |d| < 0x1_0000_0000

  datatype Entry = Entry(name: string, data: FileData)

  datatype Stat = Missing | Directory | Regular(size: nat) | CharacterDevice

  // ----- paths -----

  function StripSlashes(p: string): string {
    if p != "" && p[0] == '/' then StripSlashes(p[1..]) else p
  }

  function StripDots(p: string): string {
    if |p| >= 2 && p[0] == '.' && p[1] == '/' then StripDots(p[2..]) else p
  }

  /** Leading slashes go first, then leading "./" pairs. */
  function Normalize(p: string): string {
    StripDots(StripSlashes(p))
  }

  predicate Rooted(p: string) {
    p != "" && p[0] == '/'
  }

  predicate DotRooted(p: string) {
    |p| >= 2 && p[0] == '.' && p[1] == '/'
  }

  lemma {:induction false} StripDotsResult(p: string)
    ensures !DotRooted(StripDots(p))
    ensures !DotRooted(p) ==> StripDots(p) == p
    ensures |StripDots(p)| <= |p|
    decreases |p|
  {
    if DotRooted(p) {
      StripDotsResult(p[2..]);
    }
  }

  lemma {:induction false} StripSlashesResult(p: string)
    ensures !Rooted(StripSlashes(p))
    ensures !Rooted(p) ==> StripSlashes(p) == p
    ensures Rooted(p) ==> |StripSlashes(p)| < |p|
    decreases |p|
  {
    if Rooted(p) {
      StripSlashesResult(p[1..]);
    }
  }

  /** A second normalisation changes a path exactly when the first one exposed a
      leading slash, as it does for ".//a". */
  lemma NormalizeTwice(p: string)
    ensures Normalize(Normalize(p)) == Normalize(p) <==> !Rooted(Normalize(p))
    ensures Rooted(Normalize(p)) ==> |Normalize(Normalize(p))| < |Normalize(p)|
  {
    var q := Normalize(p);
    StripDotsResult(StripSlashes(p));
    StripSlashesResult(q);
    StripDotsResult(StripSlashes(q));
  }

  // ----- looking names up -----

  /** The first entry of that name, or |a|. */
  function FindEntry(a: seq<Entry>, name: string, from: nat): (i: nat)
    requires from <= |a|
    ensures from <= i <= |a|
    ensures i < |a| ==> a[i].name == name
    ensures forall j :: from <= j < i ==> a[j].name != name
    decreases |a| - from
  {
    if from == |a| || a[from].name == name then from else FindEntry(a, name, from + 1)
  }

  /** name followed by a slash begins entry. */
  predicate Under(entry: string, name: string) {
    |name| < |entry| && entry[..|name|] == name && entry[|name|] == '/'
  }

  predicate IsDirectory(a: seq<Entry>, name: string) {
    name == "" || exists i :: 0 <= i < |a| && Under(a[i].name, name)
  }

  function StatName(a: seq<Entry>, name: string): Stat {
    var i := FindEntry(a, name, 0);
    if i < |a| then Regular(|a[i].data|)
    else if IsDirectory(a, name) then Directory
    else Missing
  }

  function StatPath(a: seq<Entry>, p: string): Stat {
    StatName(a, Normalize(p))
  }

  /** The entry that open reaches: its path is normalised by open itself and again
      by the system call. */
  function OpenedEntry(a: seq<Entry>, p: string): nat {
    FindEntry(a, Normalize(Normalize(p)), 0)
  }

  /** The relative names that archives are built with. */
  predicate EntryName(name: string) {
    name != "" && !Rooted(name) && !DotRooted(name)
  }

  /** Archives as they are built: names are relative, and no name is a directory
      of another. */
  predicate Canonical(a: seq<Entry>) {
    && (forall i :: 0 <= i < |a| ==> EntryName(a[i].name))
    && (forall i, j :: 0 <= i < |a| && 0 <= j < |a| ==> !Under(a[j].name, a[i].name))
  }

  /** The components of a path: what stands between its slashes. */
  function Split(p: string): (cs: seq<string>)
    ensures cs != []
  {
    if p == "" then [""] else Before(p[0], Split(p[1..]))
  }

  function Before(c: char, cs: seq<string>): (ds: seq<string>)
    requires cs != []
    ensures ds != []
  {
    if c == '/' then [""] + cs else [[c] + cs[0]] + cs[1..]
  }

  lemma BeforeJoined(c: char, cs: seq<string>, ds: seq<string>)
    requires cs != []
    ensures Before(c, cs + ds) == Before(c, cs) + ds
  {
    assert (cs + ds)[1..] == cs[1..] + ds;
  }

  lemma {:induction false} SplitJoined(name: string, rest: string)
    ensures Split(name + "/" + rest) == Split(name) + Split(rest)
  {
    var p := name + "/" + rest;
    if name == "" {
      assert p[1..] == rest;
    } else {
      SplitJoined(name[1..], rest);
      assert p[1..] == name[1..] + "/" + rest;
      BeforeJoined(name[0], Split(name[1..]), Split(rest));
    }
  }

  lemma {:induction false} PrefixIsUnder(entry: string, name: string)
    requires Split(name) < Split(entry)
    ensures Under(entry, name)
  {
    var cs, ds := Split(name), Split(entry);
    assert cs[0] == ds[0];
    if name != "" {
      assert entry != "" && entry[0] == name[0] by {
        assert name[0] != '/' ==> cs[0][0] == name[0];
        assert entry != "" && entry[0] != '/' ==> ds[0][0] == entry[0];
      }
      SameTail(entry, name);
      PrefixIsUnder(entry[1..], name[1..]);
      assert entry[..|name|] == [entry[0]] + entry[1..][..|name| - 1];
    }
  }

  lemma SameTail(entry: string, name: string)
    requires Split(name) < Split(entry) && name != "" && entry != "" && entry[0] == name[0]
    ensures Split(name[1..]) < Split(entry[1..])
  {
    BeforePrefix(name[0], Split(name[1..]), Split(entry[1..]));
  }

  lemma BeforePrefix(c: char, cs: seq<string>, ds: seq<string>)
    requires cs != [] && ds != [] && Before(c, cs) < Before(c, ds)
    ensures cs < ds
  {
    if c == '/' {
      assert forall i :: 0 <= i < |cs| ==> cs[i] == Before(c, cs)[i + 1] && ds[i] == Before(c, ds)[i + 1];
    } else {
      assert Before(c, cs)[0][1..] == cs[0] && Before(c, ds)[0][1..] == ds[0];
      assert forall i :: 1 <= i < |cs| ==> cs[i] == Before(c, cs)[i] && ds[i] == Before(c, ds)[i];
    }
  }

  /** A name lies under another exactly when the other's components are the first
      of its own. */
  lemma UnderExactly(entry: string, name: string)
    ensures Under(entry, name) <==> Split(name) < Split(entry)
  {
    if Under(entry, name) {
      assert entry == name + "/" + entry[|name| + 1..];
      SplitJoined(name, entry[|name| + 1..]);
    } else if Split(name) < Split(entry) {
      PrefixIsUnder(entry, name);
    }
  }

  /** Directories are exactly the root and the paths whose components are the first,
      but not all, of those of some entry; files are exactly the entries. */
  lemma StatExact(a: seq<Entry>, p: string)
    requires Canonical(a)
    ensures StatPath(a, p) == Directory <==>
      Normalize(p) == "" || exists i :: 0 <= i < |a| && Split(Normalize(p)) < Split(a[i].name)
    ensures StatPath(a, p).Regular? <==> exists i :: 0 <= i < |a| && a[i].name == Normalize(p)
    ensures StatPath(a, p).Regular? ==>
      var i := FindEntry(a, Normalize(p), 0); i < |a| && StatPath(a, p).size == |a[i].data|
  {
    var name := Normalize(p);
    var k := FindEntry(a, name, 0);
    assert k < |a| ==> EntryName(a[k].name) && forall i :: 0 <= i < |a| ==> !Under(a[i].name, a[k].name);
    forall i | 0 <= i < |a|
      ensures Under(a[i].name, name) <==> Split(name) < Split(a[i].name)
    {
      UnderExactly(a[i].name, name);
    }
  }

  function Slashes(n: nat): string {
    if n == 0 then "" else "/" + Slashes(n - 1)
  }

  function DotSlashes(n: nat): string {
    if n == 0 then "" else "./" + DotSlashes(n - 1)
  }

  /** Some slashes, and then some "./" pairs. */
  ghost predicate RootSpelling(p: string) {
    exists i: nat, j: nat :: p == Slashes(i) + DotSlashes(j)
  }

  lemma {:induction false} LeadingSlashes(p: string) returns (i: nat)
    ensures p == Slashes(i) + StripSlashes(p)
  {
    i := 0;
    if Rooted(p) {
      i := LeadingSlashes(p[1..]);
      i := i + 1;
    }
  }

  lemma {:induction false} SlashesStripped(i: nat, p: string)
    requires !Rooted(p)
    ensures StripSlashes(Slashes(i) + p) == p
  {
    if i == 0 {
      assert Slashes(i) + p == p;
    } else {
      SlashesStripped(i - 1, p);
      assert (Slashes(i) + p)[1..] == Slashes(i - 1) + p;
    }
  }

  lemma {:induction false} LeadingDots(p: string) returns (j: nat)
    ensures p == DotSlashes(j) + StripDots(p)
    decreases |p|
  {
    j := 0;
    if DotRooted(p) {
      j := LeadingDots(p[2..]);
      j := j + 1;
    }
  }

  lemma {:induction false} DotsStripped(j: nat, p: string)
    requires !DotRooted(p)
    ensures StripDots(DotSlashes(j) + p) == p
  {
    if j == 0 {
      assert DotSlashes(j) + p == p;
    } else {
      DotsStripped(j - 1, p);
      assert (DotSlashes(j) + p)[2..] == DotSlashes(j - 1) + p;
    }
  }

  /** What is left of a path behind some slashes and then some "./" pairs, when no more
      of them can be taken away. */
  ghost predicate Leaves(p: string, q: string) {
    !DotRooted(q) && exists i: nat, j: nat ::
      p == Slashes(i) + (DotSlashes(j) + q) && (j == 0 ==> !Rooted(q))
  }

  /** The normal form of a path is exactly what is left of it; so "./x" names x. */
  lemma NormalizeExact(p: string, q: string)
    ensures Normalize(p) == q <==> Leaves(p, q)
  {
    if Normalize(p) == q {
      var i := LeadingSlashes(p);
      var j := LeadingDots(StripSlashes(p));
      StripSlashesResult(p);
      StripDotsResult(StripSlashes(p));
      assert j == 0 ==> DotSlashes(j) + q == q;
      assert p == Slashes(i) + (DotSlashes(j) + q);
    }
    if Leaves(p, q) {
      var i: nat, j: nat :| p == Slashes(i) + (DotSlashes(j) + q) && (j == 0 ==> !Rooted(q));
      assert j == 0 ==> DotSlashes(j) + q == q;
      SlashesStripped(i, DotSlashes(j) + q);
      DotsStripped(j, q);
    }
  }

  /** The paths of the root are exactly the slashes followed by "./" pairs. */
  lemma RootExactly(p: string)
    ensures Normalize(p) == "" <==> RootSpelling(p)
  {
    NormalizeExact(p, "");
    assert forall j: nat :: DotSlashes(j) + "" == DotSlashes(j);
  }

  /** "/" is the root, but "." is not: it is never reported as a directory. */
  lemma DotIsNotRoot(a: seq<Entry>)
    requires Canonical(a)
    ensures StatPath(a, "/") == Directory && StatPath(a, ".") != Directory
  {
    assert Normalize(".") == ".";
    assert "/"[1..] == "" && Normalize("/") == "";
    StatExact(a, "/");
    assert forall i :: 0 <= i < |a| && EntryName(a[i].name) ==> !Under(a[i].name, ".");
  }

  /** Walking to an entry one component at a time finds a directory at every step
      and the file at the end, with or without a leading slash. */
  lemma WalkToEntry(a: seq<Entry>, i: nat, k: nat, p: string)
    requires Canonical(a) && i < |a| && k <= |a[i].name|
    requires p == a[i].name[..k] || p == "/" + a[i].name[..k]
    ensures k < |a[i].name| && a[i].name[k] == '/' ==> StatPath(a, p) == Directory
    ensures k == |a[i].name| ==> StatPath(a, p) == Regular(|a[FindEntry(a, a[i].name, 0)].data|)
  {
    var n := a[i].name;
    PrefixNormal(n, k);
    var d := n[..k];
    if p == "/" + d {
      assert p[1..] == d;
    }
    assert StripSlashes(p) == d;
    assert Normalize(p) == d;
    StatExact(a, p);
    if k < |n| && n[k] == '/' {
      assert Under(a[i].name, d);
    }
    if k == |n| {
      assert d == n;
    }
  }

  lemma PrefixNormal(n: string, k: nat)
    requires k <= |n| && !Rooted(n) && !DotRooted(n)
    ensures StripSlashes(n[..k]) == n[..k] && StripDots(n[..k]) == n[..k]
  {
    StripSlashesResult(n[..k]);
    StripDotsResult(n[..k]);
  }

  /** open reaches a file exactly when stat reports one, as long as normalising
      the path once leaves no leading slash. */
  lemma OpenAgreesWithStat(a: seq<Entry>, p: string)
    requires !Rooted(Normalize(p))
    ensures OpenedEntry(a, p) < |a| <==> StatPath(a, p).Regular?
    ensures OpenedEntry(a, p) < |a| ==> StatPath(a, p).size == |a[OpenedEntry(a, p)].data|
  {
    NormalizeTwice(p);
  }

  /** The two agree on a path in every archive exactly when the path leaves no leading
      slash or its doubly normalised form cannot be the name of an entry. */
  lemma OpenAgreesExactly(p: string)
    ensures (forall a: seq<Entry> :: Canonical(a) ==> Agree(a, p))
      <==> (!Rooted(Normalize(p)) || !EntryName(Normalize(Normalize(p))))
  {
    NormalizeTwice(p);
    var name := Normalize(Normalize(p));
    if Rooted(Normalize(p)) && EntryName(name) {
      var a := [Entry(name, [])];
      assert Canonical(a) && !Agree(a, p);
    } else {
      forall a: seq<Entry> | Canonical(a)
        ensures Agree(a, p)
      {
        var i, k := FindEntry(a, name, 0), FindEntry(a, Normalize(p), 0);
        assert i < |a| ==> EntryName(a[i].name);
        assert k < |a| ==> EntryName(a[k].name);
      }
    }
  }

  /** open reaches a file exactly when stat reports one. */
  predicate Agree(a: seq<Entry>, p: string) {
    OpenedEntry(a, p) < |a| <==> StatPath(a, p).Regular?
  }

  /** The file "a" opens as ".//a", which stat does not find. */
  lemma DoubleSlashDisagrees()
    ensures var a := [Entry("a", [])];
      Canonical(a) && OpenedEntry(a, ".//a") == 0 && StatPath(a, ".//a") == Missing
  {
    var a := [Entry("a", [])];
    var p := ".//a";
    assert p[2..] == "/a";
    assert StripSlashes(p) == p;
    StripDotsResult("/a");
    assert Normalize(p) == "/a";
    assert "/a"[1..] == "a";
    StripSlashesResult("a");
    StripDotsResult("a");
    assert Normalize("/a") == "a";
  }

  // ----- the operations -----

  datatype OpenFile = OpenFile(data: seq<byte>, size: nat, current: nat)

  class FileSystem {
    const archive: seq<Entry>
    /** The descriptors registered for archive files. */
    var files: map<int, OpenFile>
    var errno: int

    constructor (archive: seq<Entry>)
      ensures this.archive == archive && files == map[]
    {
      this.archive := archive;
      files := map[];
      errno := 0;
    }

    /** The cursor walks over the leading part of the path. */
    method NormalizePath(p: string) returns (start: nat)
      ensures start <= |p| && p[start..] == Normalize(p)
    {
      start := 0;
      while start < |p| && p[start] == '/'
        invariant start <= |p| && StripSlashes(p) == StripSlashes(p[start..])
      {
        start := start + 1;
      }
      assert StripSlashes(p) == p[start..];
      while start + 1 < |p| && p[start] == '.' && p[start + 1] == '/'
        invariant start <= |p| && Normalize(p) == StripDots(p[start..])
      {
        assert p[start..][2..] == p[start + 2..];
        start := start + 2;
      }
    }

    method FindFile(p: string) returns (i: nat)
      ensures i == FindEntry(archive, Normalize(p), 0)
    {
      var start := NormalizePath(p);
      i := 0;
      while i < |archive| && archive[i].name != p[start..]
        invariant i <= |archive|
        invariant FindEntry(archive, Normalize(p), 0) == FindEntry(archive, Normalize(p), i)
      {
        i := i + 1;
      }
    }

    method IsArchiveDirectory(name: string) returns (directory: bool)
      ensures directory == IsDirectory(archive, name)
    {
      if |name| == 0 {
        return true;
      }
      var index := 0;
      while index < |archive|
        invariant index <= |archive|
        invariant forall j :: 0 <= j < index ==> !Under(archive[j].name, name)
      {
        var entry := archive[index].name;
        if |name| < |entry| && entry[..|name|] == name && entry[|name|] == '/' {
          return true;
        }
        index := index + 1;
      }
      directory := false;
    }

    /** stat; st is null when the caller passes no place for the answer. */
    method StatFile(p: Option<string>, nullTarget: bool) returns (status: int, st: Stat)
      modifies this`errno
      ensures nullTarget ==> status == -1 && errno == EFAULT
      ensures !nullTarget ==> st == if p.None? then Missing else StatPath(archive, p.value)
      ensures !nullTarget ==> status == if st.Missing? then -1 else 0
      ensures !nullTarget ==> errno == if st.Missing? then ENOENT else old(errno)
    {
      status, st := -1, Missing;
      if nullTarget {
        errno := EFAULT;
        return;
      }
      if p.Some? {
        var i := FindFile(p.value);
        if i < |archive| {
          return 0, Regular(|archive[i].data|);
        }
        var start := NormalizePath(p.value);
        var directory := IsArchiveDirectory(p.value[start..]);
        if directory {
          return 0, Directory;
        }
      }
      errno := ENOENT;
    }

    /** The open system call.  slot is what the descriptor allocator answers, and
        memory whether the bookkeeping record can be allocated. */
    method OpenCpio(p: Option<string>, readOnly: bool, slot: int, memory: bool) returns (fd: int)
      requires slot == -EMFILE || (slot >= 3 && slot !in files)
      modifies this`files
      ensures fd ==
        if p.None? then -EFAULT
        else if !readOnly then -EROFS
        else if FindEntry(archive, Normalize(p.value), 0) == |archive| then -ENOENT
        else if slot == -EMFILE then -EMFILE
        else if !memory then -ENOMEM
        else slot
      ensures fd < 0 ==> files == old(files)
      ensures fd >= 0 ==>
        var data := archive[FindEntry(archive, Normalize(p.value), 0)].data;
        files == old(files)[fd := OpenFile(data, |data|, 0)]
    {
      if p.None? {
        return -EFAULT;
      }
      if !readOnly {
        return -EROFS;
      }
      var i := FindFile(p.value);
      if i == |archive| {
        return -ENOENT;
      }
      if slot == -EMFILE {
        return -EMFILE;
      }
      if !memory {
        return -ENOMEM;
      }
      files := files[slot := OpenFile(archive[i].data, |archive[i].data| % 0x1_0000_0000, 0)];
      fd := slot;
    }

    /** The libc open, which normalises the path before the system call does. */
    method Open(p: Option<string>, readOnly: bool, slot: int, memory: bool) returns (fd: int)
      requires slot == -EMFILE || (slot >= 3 && slot !in files)
      modifies this`files, this`errno
      ensures p.None? ==> fd == -1 && errno == EFAULT
      ensures p.Some? && !readOnly ==> fd == -1 && errno == EROFS
      ensures p.Some? && readOnly && fd < 0 ==>
        fd == -1 && errno == if OpenedEntry(archive, p.value) == |archive| then ENOENT
                             else if slot == -EMFILE then EMFILE else ENOMEM
      ensures fd >= 0 ==> errno == old(errno)
      ensures fd >= 0 <==> p.Some? && readOnly && OpenedEntry(archive, p.value) < |archive| && slot != -EMFILE && memory
      ensures fd < 0 ==> files == old(files)
      ensures fd >= 0 ==>
        var data := archive[OpenedEntry(archive, p.value)].data;
        fd == slot && files == old(files)[fd := OpenFile(data, |data|, 0)]
    {
      if p.None? {
        errno := EFAULT;
        return -1;
      }
      if !readOnly {
        errno := EROFS;
        return -1;
      }
      var start := NormalizePath(p.value);
      fd := OpenCpio(Some(p.value[start..]), true, slot, memory);
      if fd < 0 {
        errno := -fd;
        fd := -1;
      }
    }

    method FstatFile(fd: int, nullTarget: bool) returns (status: int, st: Stat)
      modifies this`errno
      ensures nullTarget ==> status == -1 && errno == EFAULT
      ensures !nullTarget ==> st == (if 0 <= fd <= 2 then CharacterDevice
                                     else if fd in files then Regular(files[fd].size) else Missing)
      ensures !nullTarget ==> status == (if st.Missing? then -1 else 0) && (st.Missing? ==> errno == EBADF)
    {
      status, st := -1, Missing;
      if nullTarget {
        errno := EFAULT;
        return;
      }
      if 0 <= fd <= 2 {
        return 0, CharacterDevice;
      }
      if fd in files {
        return 0, Regular(files[fd].size);
      }
      errno := EBADF;
    }

    /** What stat says of a path is what fstat says after opening it. */
    method OpenThenFstat(p: string, slot: int) returns (fd: int, st: Stat)
      requires slot >= 3 && slot !in files && !Rooted(Normalize(p))
      modifies this`files, this`errno
      ensures fd >= 0 <==> StatPath(archive, p).Regular?
      ensures fd >= 0 ==> st == StatPath(archive, p)
    {
      OpenAgreesWithStat(archive, p);
      fd := Open(Some(p), true, slot, true);
      var status;
      status, st := FstatFile(fd, false);
    }
  }
}
