/** The shell commands that change the file table, and the volume of paths and files that they are meant
    to change. */
module FileCommands {
  import opened Machine
  import opened FileStore
  import N = Numbers

  const MAX_TOKEN := 63
  const MAX_PATH := 55
  const BACKSLASH: byte := 0x5C
  const COLON: byte := 0x3A
  const DOT: byte := 0x2E
  const NO_PARENT := 0xFFFF
  const DIR_ATTR: byte := 0x10
  const FILE_ATTR: byte := 0x20

  type Path = seq<byte>

  // ---------------------------------------------------------------- the volume

  datatype Node = Node(kind: byte, attr: byte, bytes: seq<byte>)

  datatype Volume = Volume(dir: Path, users: seq<User>, files: map<Path, Node>)

  /** The commands, what they are given, and a reboot. */
  datatype Op =
    | Mkdir(name: Path)
    | Touch(name: Path)
    | Chmod(mode: Path, name: Path)
    | Cd(name: Path)
    | Format(key: byte)
    | Put(name: Path, data: seq<byte>)
    | Sync
    | Reboot

  /** The live volume, and the one the disk holds. */
  datatype Volumes = Volumes(live: Volume, disk: Volume)

  function Commit(v: Volume): Volumes { Volumes(v, v) }

  predicate IsRelative(name: Path) {
    |name| < 2 || name[1] != COLON
  }

  function Resolve(dir: Path, name: Path): Path {
    if IsRelative(name) then dir + name else name
  }

  /** The value of a mode such as `32`. */
  function Mode(mode: Path): byte {
    U32(N.Number(mode[..N.RunEnd(mode, 0, 10)], 10)) % 0x100
  }

  predicate IsYes(key: byte) {
    key == 'Y' as int || key == 'y' as int
  }

  /** The place of the last backslash at or before `i`; -1 for none. */
  function LastSlash(dir: Path, i: int): (r: int)
    requires -1 <= i < |dir|
    ensures -1 <= r <= i
    ensures r >= 0 ==> dir[r] == BACKSLASH
    ensures forall k :: r < k <= i ==> dir[k] != BACKSLASH
    decreases i + 1
  {
    if i < 0 || dir[i] == BACKSLASH then i else LastSlash(dir, i - 1)
  }

  function Parent(dir: Path): Path {
    if |dir| <= 3 then dir else
    var i := LastSlash(dir, |dir| - 2);
    if i >= 0 then dir[..i + 1] else dir
  }

  function Slashed(path: Path): Path
    requires path != []
  {
    if path[|path| - 1] == BACKSLASH then path else path + [BACKSLASH]
  }

  predicate IsDirectory(v: Volume, p: Path) {
    p in v.files && v.files[p].kind == DIRECTORY
  }

  const DOTS: Path := [DOT, DOT]

  /** What each command does to the volumes. */
  function Effect(vs: Volumes, op: Op): Volumes {
    var v := vs.live;
    match op
    case Mkdir(name) =>
      if name == [] || v.dir + name in v.files then vs
      else Commit(v.(files := v.files[v.dir + name := Node(DIRECTORY, DIR_ATTR, [])]))
    case Touch(name) =>
      if name == [] || v.dir + name in v.files then vs
      else Commit(v.(files := v.files[v.dir + name := Node(FILE, FILE_ATTR, [])]))
    case Chmod(mode, name) =>
      if mode == [] || name == [] || name !in v.files then vs
      else Commit(v.(files := v.files[name := v.files[name].(attr := Mode(mode))]))
    case Cd(name) =>
      if name == [] then vs
      else if name == DOTS then Commit(v.(dir := Parent(v.dir)))
      else if IsDirectory(v, v.dir + name) then Commit(v.(dir := Slashed(v.dir + name)))
      else vs
    case Format(key) => if IsYes(key) then Commit(v.(files := map[])) else vs
    case Put(name, data) =>
      var p := Resolve(v.dir, name);
      var attr := if p in v.files then v.files[p].attr else 0;
      vs.(live := v.(files := v.files[p := Node(FILE, attr, data)]))
    case Sync => Commit(v)
    case Reboot => Commit(vs.disk)
  }

  /** The limits that a load honours: 64 files, paths of 55 characters, contents of 4096 bytes; and no
      contents for a directory. Tokens are at most 63 characters. */
  predicate InLimits(v: Volume, op: Op) {
    match op
    case Mkdir(name) => Token(name) && (name != [] ==> RoomFor(v, v.dir + name))
    case Touch(name) => Token(name) && (name != [] ==> RoomFor(v, v.dir + name))
    case Chmod(mode, name) => Token(mode) && Token(name)
    case Cd(name) => Token(name)
    case Format(_) => true
    case Put(name, data) =>
      var p := Resolve(v.dir, name);
      && Token(name) && RoomFor(v, p) && |data| <= FILE_SIZE && p != []
      && (p in v.files ==> v.files[p].kind == FILE)
    case Sync => true
    case Reboot => true
  }

  predicate Token(s: Path) {
    Text(s) && |s| <= MAX_TOKEN
  }

  predicate RoomFor(v: Volume, p: Path) {
    p in v.files || (|p| <= MAX_PATH && |v.files| < LOADED_FILES)
  }

  // ---------------------------------------------------------------- the commands

  /** The first entry with this name, as every search finds it; -1 for none. */
  function Find(table: seq<Entry>, path: Path): (i: int)
    ensures -1 <= i < |table|
    ensures i >= 0 ==> CStr(table[i].name) == path
    ensures forall k :: 0 <= k < (if i >= 0 then i else |table|) ==> CStr(table[k].name) != path
  {
    if table == [] then -1 else
    var i := Find(table[..|table| - 1], path);
    if i >= 0 then i else if CStr(table[|table| - 1].name) == path then |table| - 1 else -1
  }

  function Entries(st: Store): (r: seq<Entry>)
    ensures |r| == st.count
  {
    st.table[..st.count]
  }

  /** The next row for a new entry, which keeps what the command does not set. */
  function NewRow(st: Store, path: Path, kind: byte, attr: byte): Entry
    requires st.count < MAX_FILES
  {
    var e := st.table[st.count];
    e.(name := StrCopy(e.name, path), size := 0, kind := kind, attr := attr)
  }

  function Append(st: Store, e: Entry): Store
    requires st.count < MAX_FILES
  {
    st.(table := st.table[st.count := e], count := st.count + 1)
  }

  /** `cmd_mkdir` and `cmd_touch`, before saving: the new store and whether it is to be saved. */
  function Create(st: Store, name: Path, kind: byte, attr: byte): (Store, bool) {
    if name == [] || st.count >= MAX_FILES then (st, false)
    else if Find(Entries(st), CStr(st.dir) + name) >= 0 then (st, false)
    else (Append(st, NewRow(st, CStr(st.dir) + name, kind, attr)), true)
  }

  /** `cmd_chmod`, before saving. */
  function ChangeMode(st: Store, mode: Path, name: Path): (Store, bool) {
    var i := Find(Entries(st), name);
    if mode == [] || name == [] || i < 0 then (st, false)
    else (st.(table := st.table[i := st.table[i].(attr := Mode(mode))]), true)
  }

  /** The first entry that is a directory of this name. */
  function FindDir(table: seq<Entry>, path: Path): (i: int)
    ensures -1 <= i < |table|
    ensures i >= 0 ==> CStr(table[i].name) == path && table[i].kind == DIRECTORY
    ensures forall k :: 0 <= k < (if i >= 0 then i else |table|) ==>
      !(CStr(table[k].name) == path && table[k].kind == DIRECTORY)
  {
    if table == [] then -1 else
    var i := FindDir(table[..|table| - 1], path);
    if i >= 0 then i
    else if CStr(table[|table| - 1].name) == path && table[|table| - 1].kind == DIRECTORY then |table| - 1 else -1
  }

  /** `cmd_cd ..` in the buffer: a zero after the last backslash but the final one. */
  function CutDir(dir: seq<byte>): (r: seq<byte>)
    ensures |r| == |dir|
  {
    var n := StrLen(dir);
    if n <= 3 then dir else
    var i := LastSlash(dir, n - 2);
    if i >= 0 then dir[i + 1 := 0] else dir
  }

  /** The path copied into the buffer, with a backslash at its end. */
  function EnterDir(dir: seq<byte>, path: Path): (r: seq<byte>)
    requires |dir| == DIR_SIZE && 0 < |path| < DIR_SIZE - 1
    ensures |r| == DIR_SIZE
  {
    var d, n := StrCopy(dir, path), |path|;
    if path[n - 1] != BACKSLASH then d[n := BACKSLASH][n + 1 := 0] else d
  }

  /** `cmd_cd`, before saving. */
  function ChangeDir(st: Store, name: Path): (Store, bool)
    requires |CStr(st.dir)| + |name| < DIR_SIZE - 1
  {
    if name == [] then (st, false)
    else if name == DOTS then (st.(dir := CutDir(st.dir)), true)
    else
      var path := CStr(st.dir) + name;
      if FindDir(Entries(st), path) < 0 then (st, false) else (st.(dir := EnterDir(st.dir, path)), true)
  }

  /** `cmd_format`, before saving. */
  function Erase(st: Store, key: byte): (Store, bool) {
    if IsYes(key) then (st.(count := 0, slotCount := 0), true) else (st, false)
  }

  /** The entry a save of contents goes to: the one found, or a new one. */
  function Entered(st: Store, path: Path): (r: (Store, nat))
    requires st.count < MAX_FILES || Find(Entries(st), path) >= 0
    ensures r.1 < r.0.count
  {
    var i := Find(Entries(st), path);
    if i >= 0 then (st, i) else (Append(st, NewRow(st, path, FILE, 0).(parent := NO_PARENT)), st.count)
  }

  function SetData(slots: seq<Slot>, c: nat, file: nat, data: seq<byte>): (r: seq<Slot>)
    requires c < |slots| && file < TWO_16
    ensures |r| == |slots|
  {
    var n := Min(|data|, FILE_SIZE);
    slots[c := Slot(file, n, data[..n] + slots[c].data[n..])]
  }

  /** The slot update of `save_file_content`; -1 when the content store is full. */
  function PutData(st: Store, i: nat, data: seq<byte>): (Store, int)
    requires i < MAX_FILES
  {
    var c := FindSlot(Live(st), i);
    if c >= 0 then (st.(slots := SetData(st.slots, c, i, data)), 0)
    else if st.slotCount >= MAX_SLOTS then (st, -1)
    else (st.(slots := SetData(st.slots, st.slotCount, i, data), slotCount := st.slotCount + 1), 0)
  }

  function Resized(st: Store, i: nat, size: nat): Store
    requires i < st.count && size < TWO_32
  {
    st.(table := st.table[i := st.table[i].(size := size)])
  }

  /** `save_file_content`. */
  function SaveContent(st: Store, name: Path, data: seq<byte>): (Store, int)
    requires |data| < TWO_32
  {
    var path := if IsRelative(name) then CStr(st.dir) + name else name[..Min(|name|, 255)];
    if Find(Entries(st), path) < 0 && st.count >= MAX_FILES then (st, -1) else
    var (a, i) := Entered(st, path);
    PutData(Resized(a, i, |data|), i, data)
  }

  // ---------------------------------------------------------------- the machine

  const ROOT: seq<byte> := ['r' as int, 'o' as int, 'o' as int, 't' as int]

  /** `hash_string`. */
  function HashString(s: seq<byte>): nat {
    if s == [] then 5381 else U32(HashString(s[..|s| - 1]) * 33 + s[|s| - 1])
  }

  function HashByte(h: nat, i: nat): byte {
    match i % 4
    case 0 => h % 0x100
    case 1 => h / 0x100 % 0x100
    case 2 => h / 0x1_0000 % 0x100
    case 3 => h / 0x100_0000 % 0x100
  }

  function RootUser(row: User): User {
    StrCopy(row[..32], ROOT) + seq(32, i requires 0 <= i < 32 => HashByte(HashString(ROOT), i))
  }

  /** `fs_init_commands`: what is on the disk, and a root user if there is none. */
  function Init(st: Store, d: Disk): Store {
    var r := Load(st.(count := 0, userCount := 0, slots := Fresh().slots, slotCount := 0), d);
    if r.userCount > 0 then r else r.(users := r.users[0 := RootUser(r.users[0])], userCount := 1)
  }

  function Boot(d: Disk): Store { Init(Fresh(), d) }

  datatype System = System(st: Store, disk: Disk)

  /** A command's outcome, saved to disk if it asks for that. */
  function Saving(r: (Store, bool), d: Disk): System
    requires SlotsFit(Live(r.0))
  {
    System(r.0, if r.1 then Save(r.0, d) else d)
  }

  function Change(st: Store, op: Op): (Store, bool)
    requires op.Mkdir? || op.Touch? || op.Chmod? || op.Cd? || op.Format? || op.Sync?
    requires op.Cd? ==> |CStr(st.dir)| + |op.name| < DIR_SIZE - 1
  {
    match op
    case Mkdir(name) => Create(st, name, DIRECTORY, DIR_ATTR)
    case Touch(name) => Create(st, name, FILE, FILE_ATTR)
    case Chmod(mode, name) => ChangeMode(st, mode, name)
    case Cd(name) => ChangeDir(st, name)
    case Format(key) => Erase(st, key)
    case Sync => (st, true)
  }
}
