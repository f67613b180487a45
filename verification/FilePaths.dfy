/** Which path each command works on, and with what values, in plain terms: what the view of the store is
    after one command, and after a reboot. */
module FilePaths {
  import opened Machine
  import opened FileStore
  import opened FileCommands
  import opened FileRuns
  import N = Numbers

  /** Every path but `p` is as it was. */
  ghost predicate ElseSame(v: Volume, u: Volume, p: Path) {
    && u.dir == v.dir && u.users == v.users
    && forall q :: q != p ==> (q in u.files <==> q in v.files) && (q in v.files ==> u.files[q] == v.files[q])
  }

  /** Contents of up to 4096 bytes can go to `p`: there is room, and `p` is no directory. */
  predicate Writable(v: Volume, p: Path, data: seq<byte>) {
    && |data| <= FILE_SIZE && (p in v.files ==> v.files[p].kind == 0)
    && (p in v.files || (|p| <= MAX_PATH && |v.files| < LOADED_FILES))
  }

  /** After the save, and again after a reboot from a disk it was written to: the bytes at `p`, which is a
      file, and nothing else changed. */
  ghost predicate StoredAt(st: Store, r: Store, d: Disk, p: Path, data: seq<byte>) {
    && SlotsFit(Live(r)) && View(Boot(Save(r, d))) == View(r) && Inv(Boot(Save(r, d)))
    && p in View(r).files && View(r).files[p].bytes == data && View(r).files[p].kind == 0
    && View(r).files[p].attr == (if p in View(st).files then View(st).files[p].attr else 0)
    && ElseSame(View(st), View(r), p)
  }

  lemma StoredWhereResolved(st: Store, name: Path, data: seq<byte>, d: Disk, p: Path)
    requires Inv(st) && Token(name) && p == Resolve(CStr(st.dir), name) && p != [] && Writable(View(st), p, data)
    ensures SaveContent(st, name, data).1 == 0 && StoredAt(st, SaveContent(st, name, data).0, d, p, data)
  {
    PutKeeps(st, name, data);
    ReloadKeeps(SaveContent(st, name, data).0, d);
  }

  /** Contents saved under a name without a colon are at the current directory with the name behind it. */
  lemma PlainNameStored(st: Store, name: Path, data: seq<byte>, d: Disk)
    requires Inv(st) && Token(name) && name != [] && 0x3A !in name && Writable(View(st), View(st).dir + name, data)
    ensures SaveContent(st, name, data).1 == 0
    ensures StoredAt(st, SaveContent(st, name, data).0, d, View(st).dir + name, data)
  {
    assert |name| >= 2 ==> name[1] in name;
    assert |CStr(st.dir)| >= 3;
    StoredWhereResolved(st, name, data, d, CStr(st.dir) + name);
  }

  /** Contents saved under a name that starts with a drive are at that name, wherever the current directory. */
  lemma DriveNameStored(st: Store, drive: byte, rest: Path, data: seq<byte>, d: Disk)
    requires Inv(st) && Token([drive, 0x3A] + rest) && Writable(View(st), [drive, 0x3A] + rest, data)
    ensures var name := [drive, 0x3A] + rest;
      SaveContent(st, name, data).1 == 0 && StoredAt(st, SaveContent(st, name, data).0, d, name, data)
  {
    StoredWhereResolved(st, [drive, 0x3A] + rest, data, d, [drive, 0x3A] + rest);
  }

  /** `MKDIR` and `TOUCH` of a new name: an empty directory with attribute 0x10, an empty file with 0x20, at
      the current directory with the name behind it, and nothing else changed. */
  lemma NewNodes(st: Store, name: Path)
    requires Inv(st) && Token(name) && name != [] && RoomFor(View(st), View(st).dir + name)
    requires View(st).dir + name !in View(st).files
    ensures var p, m, t := View(st).dir + name, Change(st, Mkdir(name)), Change(st, Touch(name));
      && m.1 && Inv(m.0) && View(m.0).files == View(st).files[p := Node(1, 0x10, [])] && View(m.0).dir == View(st).dir
      && t.1 && Inv(t.0) && View(t.0).files == View(st).files[p := Node(0, 0x20, [])] && View(t.0).dir == View(st).dir
  {
    CreateKeeps(st, name, DIRECTORY, DIR_ATTR);
    CreateKeeps(st, name, FILE, FILE_ATTR);
  }

  /** `CHMOD` with a number printed in decimal sets the attribute to that number, of which eight bits are
      kept. */
  lemma AttributeSet(st: Store, n: nat, name: Path)
    requires Inv(st) && n < TWO_32 && name != [] && name in View(st).files
    ensures var r := Change(st, Chmod(N.Digits(n, 10), name));
      r.1 && Inv(r.0) && View(r.0) == View(st).(files := View(st).files[name := View(st).files[name].(attr := n % 0x100)])
  {
    N.DecimalRoundTrip(n);
    ModeKeeps(st, N.Digits(n, 10), name);
  }

  /** `FORMAT` forgets every file, in memory and on disk, when the key is Y or y, and none otherwise. */
  lemma FormatErasesIff(st: Store, key: byte, d: Disk)
    requires Inv(st) && View(st).files != map[]
    ensures var r := Change(st, Format(key));
      && Inv(r.0) && (r.1 <==> key == 0x59 || key == 0x79)
      && SlotsFit(Live(r.0)) && View(Boot(Save(r.0, d))) == View(r.0)
      && (View(r.0).files == map[] <==> key == 0x59 || key == 0x79)
      && View(r.0) == View(st).(files := View(r.0).files) && (!r.1 ==> r.0 == st)
  {
    EraseKeeps(st, key);
    ReloadKeeps(Change(st, Format(key)).0, d);
  }

  lemma ParentOfChild(dir: Path, name: Path)
    requires |dir| >= 3 && dir[|dir| - 1] == 0x5C && name != [] && 0x5C !in name
    ensures Parent(dir + name + [0x5C]) == dir
  {
    var path := dir + name + [0x5C];
    var i := LastSlash(path, |path| - 2);
    assert path[|dir| - 1] == 0x5C;
    forall k | |dir| <= k <= |path| - 2 ensures path[k] != 0x5C {
      assert path[k] == name[k - |dir|] && name[k - |dir|] in name;
    }
    assert path[..|dir|] == dir;
  }

  lemma StepIn(st: Store, name: Path, dir: Path)
    requires Inv(st) && Token(name) && name != [] && name != [0x2E, 0x2E] && 0x5C !in name && dir == View(st).dir
    requires dir + name in View(st).files && View(st).files[dir + name].kind == 1
    ensures var there := Change(st, Cd(name)).0; Inv(there) && View(there) == View(st).(dir := dir + name + [0x5C])
  {
    SlashAdded(dir, name);
    DirKeeps(st, name);
    ChangeDirIs(st, name);
  }

  lemma SlashAdded(dir: Path, name: Path)
    requires name != [] && 0x5C !in name
    ensures Slashed(dir + name) == dir + name + [0x5C]
  {
    assert (dir + name)[|dir + name| - 1] == name[|name| - 1] && name[|name| - 1] in name;
  }

  lemma ChangeDirIs(st: Store, name: Path)
    requires Inv(st) && Token(name)
    ensures Change(st, Cd(name)) == ChangeDir(st, name)
  {
  }

  lemma StepOut(st: Store, dir: Path, name: Path)
    requires Inv(st) && View(st).dir == dir + name + [0x5C]
    requires |dir| >= 3 && dir[|dir| - 1] == 0x5C && name != [] && 0x5C !in name
    ensures var back := Change(st, Cd([0x2E, 0x2E])).0; Inv(back) && View(back) == View(st).(dir := dir)
  {
    DirKeeps(st, DOTS);
    ParentOfChild(dir, name);
    ChangeDirIs(st, DOTS);
  }

  /** `CD` into a directory, which becomes the current one with a backslash behind it, and `CD ..` out of it
      again lead back to where one was. */
  lemma InAndOut(st: Store, name: Path)
    requires Inv(st) && Token(name) && name != [] && name != [0x2E, 0x2E] && 0x5C !in name
    requires View(st).dir[|View(st).dir| - 1] == 0x5C
    requires View(st).dir + name in View(st).files && View(st).files[View(st).dir + name].kind == 1
    ensures var there := Change(st, Cd(name)).0;
      && Inv(there) && View(there) == View(st).(dir := View(st).dir + name + [0x5C])
      && var back := Change(there, Cd([0x2E, 0x2E])).0; Inv(back) && View(back) == View(st)
  {
    StepIn(st, name, View(st).dir);
    StepOut(Change(st, Cd(name)).0, View(st).dir, name);
  }

  // ---------------------------------------------------------------- the first user

  lemma HashStep(s: seq<byte>, c: byte, h: nat)
    requires HashString(s) == h
    ensures HashString(s + [c]) == (h * 33 + c) % TWO_32
  {
    assert (s + [c])[..|s|] == s;
  }

  lemma HashOfRoot()
    ensures HashString(ROOT) == 0x7C9D_79A9
  {
    assert ROOT[..1] + [ROOT[1]] == ROOT[..2];
    assert ROOT[..2] + [ROOT[2]] == ROOT[..3] && ROOT[..3] + [ROOT[3]] == ROOT;
    HashStep([], ROOT[0], 5381);
    assert [] + [ROOT[0]] == ROOT[..1];
    HashStep(ROOT[..1], ROOT[1], 177687);
    HashStep(ROOT[..2], ROOT[2], 5863782);
    HashStep(ROOT[..3], ROOT[3], 193504917);
  }

  /** The user that a system without users starts with: named root, with the four bytes of the hash of that
      name, low byte first, eight times over. */
  lemma FirstUser(row: User)
    ensures CStr(RootUser(row)[..32]) == [0x72, 0x6F, 0x6F, 0x74]
    ensures forall i :: 0 <= i < 32 ==> RootUser(row)[32 + i] == [0xA9, 0x79, 0x9D, 0x7C][i % 4]
  {
    HashOfRoot();
    CStrOfCopy(row[..32], ROOT);
    assert RootUser(row)[..32] == StrCopy(row[..32], ROOT);
    assert ROOT[..4] == ROOT;
  }
}
