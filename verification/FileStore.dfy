/** The persistent file table of `commands.c`: a table of entries, a table of users and a store of file
    contents, kept in memory and written to numbered sectors of a disk. */
module FileStore {
  import opened Machine

  const SECTOR := 512
  const DIR_LBA := 499          // the current directory
  const TABLE_LBA := 500        // the file table, one entry per sector
  const USER_LBA := 628         // the user table
  const CONTENT_LBA := 700      // file contents, 16 sectors per file
  const EXTENT := 16
  const MAX_FILES := 128
  const MAX_USERS := 32
  const MAX_SLOTS := 64
  const LOADED_FILES := 64      // entries a load looks at
  const LOADED_USERS := 5
  const NAME_SIZE := 56
  const DIR_SIZE := 256
  const FILE_SIZE := 4096
  const ENTRY_SIZE := 64        // bytes saved of an entry
  const FILE: byte := 0
  const DIRECTORY: byte := 1

  function Zeros(n: nat): (r: seq<byte>)
    ensures |r| == n && forall k :: 0 <= k < n ==> r[k] == 0
  {
    seq(n, _ => 0)
  }

  type Sector = s: seq<byte> | |s| == SECTOR witness Zeros(SECTOR)
  const ZERO_SECTOR: Sector := Zeros(SECTOR)
  type User = s: seq<byte> | |s| == ENTRY_SIZE witness Zeros(ENTRY_SIZE)

  datatype RawEntry = Entry(name: seq<byte>, size: nat, kind: byte, attr: byte, parent: nat)
  type Entry = e: RawEntry | |e.name| == NAME_SIZE && e.size < TWO_32 && e.parent < TWO_16
    witness Entry(Zeros(NAME_SIZE), 0, 0, 0, 0)

  datatype RawSlot = Slot(file: nat, size: nat, data: seq<byte>)
  type Slot = s: RawSlot | s.file < TWO_16 && s.size < TWO_32 && |s.data| == FILE_SIZE
    witness Slot(0, 0, Zeros(FILE_SIZE))

  /** The static variables of `commands.c`. Past the counts the arrays hold what was there before. */
  datatype RawStore = Store(dir: seq<byte>, table: seq<Entry>, count: nat, users: seq<User>, userCount: nat,
                            slots: seq<Slot>, slotCount: nat)
  type Store = s: RawStore |
    && |s.dir| == DIR_SIZE && |s.table| == MAX_FILES && |s.users| == MAX_USERS && |s.slots| == MAX_SLOTS
    && s.count <= MAX_FILES && s.userCount <= MAX_USERS && s.slotCount <= MAX_SLOTS
    witness Store(Zeros(DIR_SIZE), seq(MAX_FILES, _ => Entry(Zeros(NAME_SIZE), 0, 0, 0, 0)), 0,
                  seq(MAX_USERS, _ => Zeros(ENTRY_SIZE)), 0, seq(MAX_SLOTS, _ => Slot(0, 0, Zeros(FILE_SIZE))), 0)

  // ---------------------------------------------------------------- C strings

  /** The place of the first zero byte. */
  function StrLen(s: seq<byte>, i: nat := 0): (r: nat)
    requires i <= |s|
    ensures i <= r <= |s|
    ensures forall k :: i <= k < r ==> s[k] != 0
    ensures r < |s| ==> s[r] == 0
    decreases |s| - i
  {
    if i < |s| && s[i] != 0 then StrLen(s, i + 1) else i
  }

  function CStr(s: seq<byte>): (r: seq<byte>)
    ensures |r| <= |s| && r == s[..|r|] && Text(r)
  {
    s[..StrLen(s)]
  }

  /** A string that holds no zero byte. */
  predicate Text(s: seq<byte>) {
    forall k :: 0 <= k < |s| ==> s[k] != 0
  }

  lemma CStrIs(s: seq<byte>, t: seq<byte>)
    requires |t| <= |s| && s[..|t|] == t && Text(t) && (|t| < |s| ==> s[|t|] == 0)
    ensures CStr(s) == t
  {
    assert forall k :: 0 <= k < |t| ==> s[..|t|][k] == s[k];
    assert StrLen(s) == |t|;
  }

  /** `str_copy` into a buffer: at most the buffer's size less one, then a zero. */
  function StrCopy(dst: seq<byte>, src: seq<byte>): (r: seq<byte>)
    requires |dst| > 0
    ensures |r| == |dst|
  {
    var k := Min(|src|, |dst| - 1);
    src[..k] + [0] + dst[k + 1..]
  }

  lemma CStrOfCopy(dst: seq<byte>, src: seq<byte>)
    requires |dst| > 0 && Text(src)
    ensures CStr(StrCopy(dst, src)) == src[..Min(|src|, |dst| - 1)]
  {
    var t := src[..Min(|src|, |dst| - 1)];
    assert StrCopy(dst, src)[..|t|] == t;
    CStrIs(StrCopy(dst, src), t);
  }

  // ---------------------------------------------------------------- the disk

  type Disk = map<nat, Sector>

  function Read(d: Disk, lba: nat): Sector {
    if lba in d then d[lba] else ZERO_SECTOR
  }

  function TableAt(d: Disk, i: nat): Sector { Read(d, TABLE_LBA + i) }
  function UserAt(d: Disk, i: nat): Sector { Read(d, USER_LBA + i) }
  function ContentAt(d: Disk, file: nat, s: nat): Sector { Read(d, CONTENT_LBA + EXTENT * file + s) }

  /** Consecutive sectors, written one by one. */
  function WriteRun(d: Disk, lba: nat, ss: seq<Sector>): Disk {
    if ss == [] then d else WriteRun(d, lba, ss[..|ss| - 1])[lba + |ss| - 1 := ss[|ss| - 1]]
  }

  /** What is read at `x` where one sector, or a run of them, lies over what was there. */
  function OneOver(x: nat, at: nat, s: Sector, below: Sector): Sector {
    if x == at then s else below
  }

  function RunOver(x: nat, lba: nat, ss: seq<Sector>, below: Sector): Sector {
    if lba <= x < lba + |ss| then ss[x - lba] else below
  }

  lemma {:induction false} ReadRun(d: Disk, lba: nat, ss: seq<Sector>, x: nat)
    ensures Read(WriteRun(d, lba, ss), x) == RunOver(x, lba, ss, Read(d, x))
  {
    if ss != [] {
      ReadRun(d, lba, ss[..|ss| - 1], x);
    }
  }

  lemma WriteNext(d: Disk, lba: nat, ss: seq<Sector>, i: nat)
    requires i < |ss|
    ensures WriteRun(d, lba, ss[..i + 1]) == WriteRun(d, lba, ss[..i])[lba + i := ss[i]]
  {
    assert ss[..i + 1][..i] == ss[..i];
  }

  function Pad(b: seq<byte>): (r: Sector)
    requires |b| <= SECTOR
    ensures forall k :: 0 <= k < SECTOR ==> r[k] == if k < |b| then b[k] else 0
  {
    b + Zeros(SECTOR - |b|)
  }

  // ---------------------------------------------------------------- entries as bytes

  function Pow256(k: nat): nat {
    if k == 0 then 1 else 0x100 * Pow256(k - 1)
  }

  /** The `k` bytes of a number in memory, low byte first. */
  function LowFirst(n: nat, k: nat): (r: seq<byte>)
    ensures |r| == k
  {
    if k == 0 then [] else [n % 0x100] + LowFirst(n / 0x100, k - 1)
  }

  function Value(b: seq<byte>): (n: nat)
    ensures n < Pow256(|b|)
  {
    if b == [] then 0 else b[0] + 0x100 * Value(b[1..])
  }

  lemma {:induction false} ValueOfLowFirst(n: nat, k: nat)
    requires n < Pow256(k)
    ensures Value(LowFirst(n, k)) == n
  {
    if k > 0 {
      ValueOfLowFirst(n / 0x100, k - 1);
      assert LowFirst(n, k)[1..] == LowFirst(n / 0x100, k - 1);
    }
  }

  lemma PowersOf256()
    ensures Pow256(2) == TWO_16 && Pow256(4) == TWO_32
  {
    assert Pow256(1) == 0x100;
    assert Pow256(3) == 0x100 * Pow256(2);
  }

  function EntryBytes(e: Entry): (r: seq<byte>)
    ensures |r| == ENTRY_SIZE && r[..NAME_SIZE] == e.name
  {
    e.name + LowFirst(e.size, 4) + [e.kind, e.attr] + LowFirst(e.parent, 2)
  }

  function ParseEntry(b: seq<byte>): Entry
    requires ENTRY_SIZE <= |b|
  {
    PowersOf256();
    Entry(b[..NAME_SIZE], Value(b[56..60]), b[60], b[61], Value(b[62..64]))
  }

  /** The 64 saved bytes of an entry hold all of it. */
  lemma ParseBytes(e: Entry, b: seq<byte>)
    requires ENTRY_SIZE <= |b| && b[..ENTRY_SIZE] == EntryBytes(e)
    ensures ParseEntry(b) == e
  {
    var r := EntryBytes(e);
    assert forall k :: 0 <= k < ENTRY_SIZE ==> b[k] == r[k];
    assert b[..NAME_SIZE] == r[..NAME_SIZE] && b[56..60] == LowFirst(e.size, 4) && b[62..64] == LowFirst(e.parent, 2);
    PowersOf256();
    ValueOfLowFirst(e.size, 4);
    ValueOfLowFirst(e.parent, 2);
  }

  lemma FourBytes(n: nat)
    requires n < TWO_32
    ensures var b := LowFirst(n, 4);
      b[0] as int + 0x100 * b[1] as int + 0x1_0000 * b[2] as int + 0x100_0000 * b[3] as int == n
  {
    PowersOf256();
    ValueOfLowFirst(n, 4);
    var b := LowFirst(n, 4);
    assert b[1..][1..] == b[2..] && b[2..][1..] == b[3..] && b[3..][1..] == [];
    assert Value(b[3..]) == b[3] as int;
    assert Value(b[2..]) == b[2] as int + 0x100 * Value(b[3..]);
    assert Value(b[1..]) == b[1] as int + 0x100 * Value(b[2..]);
  }

  lemma TwoBytes(n: nat)
    requires n < TWO_16
    ensures var b := LowFirst(n, 2); b[0] as int + 0x100 * b[1] as int == n
  {
    PowersOf256();
    ValueOfLowFirst(n, 2);
    var b := LowFirst(n, 2);
    assert b[1..][1..] == [] && Value(b[1..]) == b[1] as int;
  }

  /** Where each field of an entry is among its 64 bytes, numbers low byte first. */
  lemma EntryFields(e: Entry, b: seq<byte>)
    requires b == EntryBytes(e)
    ensures b[..56] == e.name && b[60] == e.kind && b[61] == e.attr
    ensures b[56] as int + 0x100 * b[57] as int + 0x1_0000 * b[58] as int + 0x100_0000 * b[59] as int == e.size
    ensures b[62] as int + 0x100 * b[63] as int == e.parent
  {
    FourBytes(e.size);
    TwoBytes(e.parent);
    var n, p := LowFirst(e.size, 4), LowFirst(e.parent, 2);
    assert b[56] == n[0] && b[57] == n[1] && b[58] == n[2] && b[59] == n[3] && b[62] == p[0] && b[63] == p[1];
  }

  // ---------------------------------------------------------------- save

  function EntrySector(e: Entry): Sector { Pad(EntryBytes(e)) }

  function TableSectors(st: Store): (r: seq<Sector>) {
    seq<Sector>(if st.count < LOADED_FILES then LOADED_FILES else st.count,
        i requires 0 <= i < MAX_FILES => if i < st.count then EntrySector(st.table[i]) else ZERO_SECTOR)
  }

  function UserSectors(st: Store): (r: seq<Sector>) {
    seq<Sector>(if st.userCount < LOADED_USERS then LOADED_USERS else st.userCount,
        i requires 0 <= i < MAX_USERS => if i < st.userCount then Pad(st.users[i]) else ZERO_SECTOR)
  }

  /** Sector `s` of a file's extent: the bytes it covers, padded; nothing past the end of the file. */
  function ContentSector(slot: Slot, s: nat): Sector
    requires slot.size <= FILE_SIZE
  {
    if SECTOR * s <= slot.size then Pad(slot.data[SECTOR * s..Min(slot.size, SECTOR * s + SECTOR)]) else ZERO_SECTOR
  }

  function ContentSectors(slot: Slot): (r: seq<Sector>)
    requires slot.size <= FILE_SIZE
    ensures |r| == EXTENT
  {
    seq<Sector>(EXTENT, s requires 0 <= s < EXTENT => ContentSector(slot, s))
  }

  /** No slot claims more bytes than it has. */
  predicate SlotsFit(slots: seq<Slot>) {
    forall c :: 0 <= c < |slots| ==> slots[c].size <= FILE_SIZE
  }

  function WriteSlots(d: Disk, slots: seq<Slot>): Disk
    requires SlotsFit(slots)
  {
    if slots == [] then d else
    var last := slots[|slots| - 1];
    WriteRun(WriteSlots(d, slots[..|slots| - 1]), CONTENT_LBA + EXTENT * last.file, ContentSectors(last))
  }

  function Live(st: Store): (r: seq<Slot>)
    ensures |r| == st.slotCount
  {
    st.slots[..st.slotCount]
  }

  function WriteTables(st: Store, d: Disk): Disk {
    WriteRun(WriteRun(d[DIR_LBA := Pad(CStr(st.dir))], TABLE_LBA, TableSectors(st)), USER_LBA, UserSectors(st))
  }

  /** `fs_save_to_disk`. */
  function Save(st: Store, d: Disk): Disk
    requires SlotsFit(Live(st))
  {
    WriteSlots(WriteTables(st, d), Live(st))
  }

  /** The slot that wins when several are for one file: the last; -1 for none. */
  function Owner(slots: seq<Slot>, file: nat): (c: int)
    ensures -1 <= c < |slots|
    ensures c >= 0 ==> slots[c].file == file
    ensures forall k :: c < k < |slots| ==> slots[k].file != file
  {
    if slots == [] then -1
    else if slots[|slots| - 1].file == file then |slots| - 1
    else Owner(slots[..|slots| - 1], file)
  }

  lemma {:induction false} SlotsBelow(d: Disk, slots: seq<Slot>, x: nat)
    requires SlotsFit(slots) && x < CONTENT_LBA
    ensures Read(WriteSlots(d, slots), x) == Read(d, x)
  {
    if slots != [] {
      var last, before := slots[|slots| - 1], slots[..|slots| - 1];
      SlotsBelow(d, before, x);
      ReadRun(WriteSlots(d, before), CONTENT_LBA + EXTENT * last.file, ContentSectors(last), x);
    }
  }

  /** The extents of different files never overlap. */
  lemma ExtentOver(file: nat, last: nat, s: nat, ss: seq<Sector>, below: Sector)
    requires s < EXTENT == |ss|
    ensures RunOver(CONTENT_LBA + EXTENT * file + s, CONTENT_LBA + EXTENT * last, ss, below) ==
      if file == last then ss[s] else below
  {
  }

  lemma {:induction false} SlotsAt(d: Disk, slots: seq<Slot>, file: nat, s: nat)
    requires SlotsFit(slots) && s < EXTENT
    ensures ContentAt(WriteSlots(d, slots), file, s) == Stored(slots, d, file, s)
  {
    if slots != [] {
      var last, before := slots[|slots| - 1], slots[..|slots| - 1];
      SlotsAt(d, before, file, s);
      ReadRun(WriteSlots(d, before), CONTENT_LBA + EXTENT * last.file, ContentSectors(last),
              CONTENT_LBA + EXTENT * file + s);
      ExtentOver(file, last.file, s, ContentSectors(last), ContentAt(WriteSlots(d, before), file, s));
    }
  }

  /** Sector `s` of a file after saving these slots over disk `d`. */
  function Stored(slots: seq<Slot>, d: Disk, file: nat, s: nat): Sector
    requires SlotsFit(slots)
  {
    var c := Owner(slots, file);
    if c >= 0 then ContentSector(slots[c], s) else ContentAt(d, file, s)
  }

  lemma ReadOne(d: Disk, at: nat, s: Sector, x: nat)
    ensures Read(d[at := s], x) == OneOver(x, at, s, Read(d, x))
  {
  }

  lemma RunsAt(d: Disk, s: Sector, ts: seq<Sector>, us: seq<Sector>, x: nat)
    ensures Read(WriteRun(WriteRun(d[DIR_LBA := s], TABLE_LBA, ts), USER_LBA, us), x) ==
      RunOver(x, USER_LBA, us, RunOver(x, TABLE_LBA, ts, OneOver(x, DIR_LBA, s, Read(d, x))))
  {
    ReadOne(d, DIR_LBA, s, x);
    ReadRun(d[DIR_LBA := s], TABLE_LBA, ts, x);
    ReadRun(WriteRun(d[DIR_LBA := s], TABLE_LBA, ts), USER_LBA, us, x);
  }

  lemma TablesAt(st: Store, d: Disk, x: nat)
    ensures Read(WriteTables(st, d), x) ==
      RunOver(x, USER_LBA, UserSectors(st),
              RunOver(x, TABLE_LBA, TableSectors(st), OneOver(x, DIR_LBA, Pad(CStr(st.dir)), Read(d, x))))
  {
    RunsAt(d, Pad(CStr(st.dir)), TableSectors(st), UserSectors(st), x);
  }

  lemma SavedAt(st: Store, d: Disk, x: nat)
    requires SlotsFit(Live(st)) && x < CONTENT_LBA
    ensures Read(Save(st, d), x) ==
      if x == DIR_LBA then Pad(CStr(st.dir))
      else if TABLE_LBA <= x < TABLE_LBA + st.count then EntrySector(st.table[x - TABLE_LBA])
      else if TABLE_LBA <= x < TABLE_LBA + LOADED_FILES then ZERO_SECTOR
      else if USER_LBA <= x < USER_LBA + st.userCount then Pad(st.users[x - USER_LBA])
      else if USER_LBA <= x < USER_LBA + LOADED_USERS then ZERO_SECTOR
      else Read(d, x)
  {
    SlotsBelow(WriteTables(st, d), Live(st), x);
    TablesAt(st, d, x);
  }

  /** What a save over `d` leaves on the disk, region by region: the directory, each table entry, each
      user, each file's extent, and every other sector as it was. No region reaches into another. */
  ghost predicate Layout(r: Disk, st: Store, d: Disk)
    requires SlotsFit(Live(st))
  {
    && Read(r, DIR_LBA) == Pad(CStr(st.dir))
    && (forall i :: 0 <= i < st.count ==> TableAt(r, i) == EntrySector(st.table[i]))
    && (forall i :: st.count <= i < LOADED_FILES ==> TableAt(r, i) == ZERO_SECTOR)
    && (forall i :: 0 <= i < st.userCount ==> UserAt(r, i) == Pad(st.users[i]))
    && (forall i :: st.userCount <= i < LOADED_USERS ==> UserAt(r, i) == ZERO_SECTOR)
    && (forall file, s :: 0 <= file && 0 <= s < EXTENT ==> ContentAt(r, file, s) == Stored(Live(st), d, file, s))
    && (forall x :: 0 <= x < CONTENT_LBA && Outside(st, x) ==> Read(r, x) == Read(d, x))
  }

  predicate Outside(st: Store, x: nat) {
    && x != DIR_LBA
    && !(TABLE_LBA <= x < TABLE_LBA + LOADED_FILES || TABLE_LBA <= x < TABLE_LBA + st.count)
    && !(USER_LBA <= x < USER_LBA + LOADED_USERS || USER_LBA <= x < USER_LBA + st.userCount)
  }

  lemma SavedLayout(st: Store, d: Disk)
    requires SlotsFit(Live(st))
    ensures Layout(Save(st, d), st, d)
  {
    var r := Save(st, d);
    SavedAt(st, d, DIR_LBA);
    forall i | 0 <= i < st.count ensures TableAt(r, i) == EntrySector(st.table[i]) {
      SavedAt(st, d, TABLE_LBA + i);
    }
    forall i | st.count <= i < LOADED_FILES ensures TableAt(r, i) == ZERO_SECTOR {
      SavedAt(st, d, TABLE_LBA + i);
    }
    forall i | 0 <= i < st.userCount ensures UserAt(r, i) == Pad(st.users[i]) {
      SavedAt(st, d, USER_LBA + i);
    }
    forall i | st.userCount <= i < LOADED_USERS ensures UserAt(r, i) == ZERO_SECTOR {
      SavedAt(st, d, USER_LBA + i);
    }
    forall file, s | 0 <= file && 0 <= s < EXTENT ensures ContentAt(r, file, s) == Stored(Live(st), d, file, s) {
      SlotsAt(WriteTables(st, d), Live(st), file, s);
      TablesAt(st, d, CONTENT_LBA + EXTENT * file + s);
    }
    forall x | 0 <= x < CONTENT_LBA && Outside(st, x) ensures Read(r, x) == Read(d, x) {
      SavedAt(st, d, x);
    }
  }

  // ---------------------------------------------------------------- load

  /** The leading table sectors, at most 64, that hold an entry. */
  function LoadCount(d: Disk, i: nat := 0): (n: nat)
    requires i <= LOADED_FILES
    ensures i <= n <= LOADED_FILES
    ensures forall k :: i <= k < n ==> TableAt(d, k)[0] != 0
    ensures n < LOADED_FILES ==> TableAt(d, n)[0] == 0
    decreases LOADED_FILES - i
  {
    if i < LOADED_FILES && TableAt(d, i)[0] != 0 then LoadCount(d, i + 1) else i
  }

  function LoadTable(table: seq<Entry>, d: Disk, n: nat): (r: seq<Entry>)
    requires |table| == MAX_FILES
    ensures |r| == MAX_FILES
  {
    seq<Entry>(MAX_FILES, i requires 0 <= i < MAX_FILES => if i < n then ParseEntry(TableAt(d, i)) else table[i])
  }

  /** The users among the first `k` user sectors; empty sectors are skipped. */
  function LoadUsers(d: Disk, k: nat): (r: seq<User>)
    ensures |r| <= k
  {
    if k == 0 then [] else
    var s := UserAt(d, k - 1);
    LoadUsers(d, k - 1) + if s[0] != 0 then [s[..ENTRY_SIZE]] else []
  }

  /** The loader's sector count, with its 32-bit sum. */
  function SectorsFor(size: nat): (n: nat)
    ensures n > 0
  {
    var n := U32(size + 511) / 512;
    if n == 0 then 1 else n
  }

  /** How many bytes the loader takes from the disk. */
  function LoadSize(size: nat): (n: nat)
    ensures n <= FILE_SIZE && n <= size
  {
    Min(Min(size, FILE_SIZE), SECTOR * SectorsFor(size))
  }

  function LoadData(d: Disk, file: nat, size: nat): (r: seq<byte>)
    ensures |r| == FILE_SIZE
  {
    seq(FILE_SIZE, k requires 0 <= k < FILE_SIZE =>
      if k < LoadSize(size) then ContentAt(d, file, k / SECTOR)[k % SECTOR] else 0)
  }

  /** Contents are loaded only for files of positive size. */
  predicate HasContent(e: Entry) {
    e.size > 0 && e.kind == FILE
  }

  function LoadSlot(d: Disk, e: Entry, i: nat): (s: Slot)
    requires i < LOADED_FILES
  {
    Slot(i, e.size, LoadData(d, i, e.size))
  }

  function LoadSlots(d: Disk, table: seq<Entry>): (r: seq<Slot>)
    requires |table| <= LOADED_FILES
    ensures |r| <= |table|
  {
    if table == [] then [] else
    var i := |table| - 1;
    LoadSlots(d, table[..i]) + if HasContent(table[i]) then [LoadSlot(d, table[i], i)] else []
  }

  function LoadDir(dir: seq<byte>, s: Sector): (r: seq<byte>)
    requires |dir| == DIR_SIZE
    ensures |r| == DIR_SIZE
  {
    if s[0] == 'C' as int && s[1] == ':' as int then
      var n := StrLen(s[..DIR_SIZE]);
      (s[..n] + dir[n..])[DIR_SIZE - 1 := 0]
    else dir
  }

  /** `fs_load_from_disk`. */
  function Load(st: Store, d: Disk): Store {
    var n := LoadCount(d);
    var table := LoadTable(st.table, d, n);
    var users := LoadUsers(d, LOADED_USERS);
    var slots := LoadSlots(d, table[..n]);
    Store(LoadDir(st.dir, Read(d, DIR_LBA)), table, n, users + st.users[|users|..], |users|,
          slots + st.slots[|slots|..], |slots|)
  }

  const ROOT_DIR: seq<byte> := ['C' as int, ':' as int, '\\' as int]

  /** Memory before the first load: zeros, and the root directory. */
  function Fresh(): Store {
    Store(ROOT_DIR + Zeros(DIR_SIZE - 3), seq(MAX_FILES, _ => Entry(Zeros(NAME_SIZE), 0, 0, 0, 0)), 0,
          seq(MAX_USERS, _ => Zeros(ENTRY_SIZE)), 0, seq(MAX_SLOTS, _ => Slot(0, 0, Zeros(FILE_SIZE))), 0)
  }

  // ---------------------------------------------------------------- round trip

  predicate Named(s: seq<byte>) {
    |s| > 0 && s[0] != 0
  }

  predicate TableSurvives(st: Store) {
    st.count <= LOADED_FILES && forall i :: 0 <= i < st.count ==> Named(st.table[i].name)
  }

  predicate SameTable(a: Store, b: Store) {
    a.count == b.count && forall i :: 0 <= i < a.count ==> a.table[i] == b.table[i]
  }

  lemma EntryBack(e: Entry)
    ensures ParseEntry(EntrySector(e)) == e && EntrySector(e)[0] == e.name[0]
  {
    var b := EntryBytes(e);
    assert EntrySector(e)[..ENTRY_SIZE] == b;
    ParseBytes(e, EntrySector(e));
    assert b[..NAME_SIZE][0] == b[0];
  }

  lemma CountLoaded(st: Store, d: Disk)
    requires SlotsFit(Live(st))
    ensures LoadCount(Save(st, d)) == st.count <==> TableSurvives(st)
    ensures forall i :: 0 <= i < st.count ==> ParseEntry(TableAt(Save(st, d), i)) == st.table[i]
  {
    var r := Save(st, d);
    SavedLayout(st, d);
    forall i | 0 <= i < st.count
      ensures ParseEntry(TableAt(r, i)) == st.table[i] && TableAt(r, i)[0] == st.table[i].name[0]
    {
      EntryBack(st.table[i]);
    }
    assert st.count < LOADED_FILES ==> TableAt(r, st.count) == ZERO_SECTOR;
  }

  /** The table comes back exactly when it has at most 64 entries and none without a name. */
  lemma TableRestoredIff(st: Store, d: Disk)
    requires SlotsFit(Live(st))
    ensures SameTable(Load(Fresh(), Save(st, d)), st) <==> TableSurvives(st)
  {
    CountLoaded(st, d);
    var r, n := Save(st, d), LoadCount(Save(st, d));
    forall i | 0 <= i < n ensures LoadTable(Fresh().table, r, n)[i] == ParseEntry(TableAt(r, i)) {}
  }

  predicate UsersSurvive(st: Store) {
    st.userCount <= LOADED_USERS && forall i :: 0 <= i < st.userCount ==> Named(st.users[i])
  }

  predicate SameUsers(a: Store, b: Store) {
    a.userCount == b.userCount && a.users[..a.userCount] == b.users[..b.userCount]
  }

  lemma SavedUser(st: Store, d: Disk, i: nat)
    requires SlotsFit(Live(st)) && i < LOADED_USERS
    ensures var s := UserAt(Save(st, d), i);
      if i < st.userCount then s[..ENTRY_SIZE] == st.users[i] && (s[0] != 0 <==> Named(st.users[i])) else s[0] == 0
  {
    SavedAt(st, d, USER_LBA + i);
    var s := UserAt(Save(st, d), i);
    if i < st.userCount {
      assert s[..ENTRY_SIZE] == st.users[i];
      assert s[0] == st.users[i][0];
    }
  }

  /** `l` holds users out of the first `n`, all of them exactly when each has a name. */
  predicate Collected(l: seq<User>, users: seq<User>, n: nat) {
    && |l| <= n <= |users|
    && (|l| == n <==> forall i :: 0 <= i < n ==> Named(users[i]))
    && (|l| == n ==> l == users[..n])
  }

  lemma {:induction false} UsersLoaded(st: Store, d: Disk, k: nat)
    requires SlotsFit(Live(st)) && k <= LOADED_USERS
    ensures Collected(LoadUsers(Save(st, d), k), st.users, Min(k, st.userCount))
  {
    if k > 0 {
      UsersLoaded(st, d, k - 1);
      SavedUser(st, d, k - 1);
    }
  }

  /** The users come back exactly when there are at most five, each with a name. */
  lemma UsersRestoredIff(st: Store, d: Disk)
    requires SlotsFit(Live(st))
    ensures SameUsers(Load(Fresh(), Save(st, d)), st) <==> UsersSurvive(st)
  {
    UsersLoaded(st, d, LOADED_USERS);
    var r, l := Load(Fresh(), Save(st, d)), LoadUsers(Save(st, d), LOADED_USERS);
    assert r.users[..r.userCount] == l;
  }

  predicate DirSurvives(dir: seq<byte>) {
    3 <= |dir| < DIR_SIZE && dir[0] == 'C' as int && dir[1] == ':' as int
  }

  lemma LoadedDir(dir: seq<byte>)
    requires |dir| == DIR_SIZE && DirSurvives(CStr(dir))
    ensures CStr(LoadDir(Fresh().dir, Pad(CStr(dir)))) == CStr(dir)
  {
    var t := CStr(dir);
    var s := Pad(t);
    CStrIs(s[..DIR_SIZE], t);
    var r := LoadDir(Fresh().dir, s);
    assert r[..|t|] == t;
    CStrIs(r, t);
  }

  lemma LostDir(dir: seq<byte>)
    requires |dir| == DIR_SIZE && !DirSurvives(CStr(dir))
    ensures CStr(LoadDir(Fresh().dir, Pad(CStr(dir)))) != CStr(dir)
  {
    var t := CStr(dir);
    var s, f := Pad(t), Fresh().dir;
    var r := LoadDir(f, s);
    CStrIs(f, ROOT_DIR);
    if s[0] == 'C' as int && s[1] == ':' as int {
      if |t| == DIR_SIZE {
        assert r[DIR_SIZE - 1] == 0;
        assert t[DIR_SIZE - 1] != 0;
      } else {
        assert |t| == 2;
        CStrIs(s[..DIR_SIZE], t);
        assert r[2] == ROOT_DIR[2];
        assert StrLen(r) != 2;
      }
    }
  }

  /** The directory path comes back exactly when it is longer than a bare drive `C:`, and terminated. */
  lemma DirRestoredIff(st: Store, d: Disk)
    requires SlotsFit(Live(st))
    ensures CStr(Load(Fresh(), Save(st, d)).dir) == CStr(st.dir) <==> DirSurvives(CStr(st.dir))
  {
    SavedAt(st, d, DIR_LBA);
    if DirSurvives(CStr(st.dir)) {
      LoadedDir(st.dir);
    } else {
      LostDir(st.dir);
    }
  }

  /** The first slot for a file, as every search finds it; -1 for none. */
  function FindSlot(slots: seq<Slot>, file: nat): (c: int)
    ensures -1 <= c < |slots|
    ensures c >= 0 ==> slots[c].file == file
    ensures forall k :: 0 <= k < (if c >= 0 then c else |slots|) ==> slots[k].file != file
  {
    if slots == [] then -1 else
    var c := FindSlot(slots[..|slots| - 1], file);
    if c >= 0 then c else if slots[|slots| - 1].file == file then |slots| - 1 else -1
  }

  function Bytes(s: Slot): seq<byte> {
    s.data[..Min(s.size, FILE_SIZE)]
  }

  /** The bytes kept for a file. */
  function Content(slots: seq<Slot>, file: nat): seq<byte> {
    var c := FindSlot(slots, file);
    if c >= 0 then Bytes(slots[c]) else []
  }

  predicate OneSlotEach(slots: seq<Slot>) {
    forall a, b :: 0 <= a < b < |slots| ==> slots[a].file != slots[b].file
  }

  lemma FindSnoc(slots: seq<Slot>, s: Slot, file: nat)
    ensures FindSlot(slots + [s], file) ==
      if FindSlot(slots, file) >= 0 then FindSlot(slots, file) else if s.file == file then |slots| else -1
    ensures Content(slots + [s], file) ==
      if FindSlot(slots, file) >= 0 then Content(slots, file) else if s.file == file then Bytes(s) else []
  {
    assert (slots + [s])[..|slots|] == slots;
  }

  lemma LoadSnoc(d: Disk, table: seq<Entry>)
    requires 0 < |table| <= LOADED_FILES
    ensures var n := |table| - 1;
      LoadSlots(d, table) ==
        if HasContent(table[n]) then LoadSlots(d, table[..n]) + [LoadSlot(d, table[n], n)] else LoadSlots(d, table[..n])
  {
  }

  predicate Kept(table: seq<Entry>, i: nat) {
    i < |table| && HasContent(table[i])
  }

  function KeptBytes(d: Disk, table: seq<Entry>, i: nat): seq<byte>
    requires |table| <= LOADED_FILES
  {
    if Kept(table, i) then Bytes(LoadSlot(d, table[i], i)) else []
  }

  lemma KeptBefore(d: Disk, table: seq<Entry>, n: nat, i: nat)
    requires n + 1 == |table| <= LOADED_FILES && i != n
    ensures Kept(table[..n], i) == Kept(table, i) && KeptBytes(d, table[..n], i) == KeptBytes(d, table, i)
  {
  }

  lemma {:induction false} SlotsLoaded(d: Disk, table: seq<Entry>, i: nat)
    requires |table| <= LOADED_FILES
    ensures Content(LoadSlots(d, table), i) == KeptBytes(d, table, i)
    ensures FindSlot(LoadSlots(d, table), i) >= 0 <==> Kept(table, i)
  {
    if table != [] {
      var n := |table| - 1;
      SlotsLoaded(d, table[..n], i);
      LoadSnoc(d, table);
      if HasContent(table[n]) {
        FindSnoc(LoadSlots(d, table[..n]), LoadSlot(d, table[n], n), i);
      }
      if i != n {
        KeptBefore(d, table, n, i);
      }
    }
  }

  lemma ExtentRead(slot: Slot, k: nat)
    requires k < slot.size <= FILE_SIZE
    ensures k / SECTOR < EXTENT && ContentSector(slot, k / SECTOR)[k % SECTOR] == slot.data[k]
  {
  }

  /** The loader asks for enough sectors. */
  lemma SectorsEnough(size: nat)
    requires size <= FILE_SIZE
    ensures LoadSize(size) == size
  {
  }

  lemma DataLoaded(st: Store, d: Disk, i: nat)
    requires SlotsFit(Live(st)) && OneSlotEach(Live(st)) && FindSlot(Live(st), i) >= 0
    ensures var slot := Live(st)[FindSlot(Live(st), i)];
      LoadData(Save(st, d), i, slot.size)[..slot.size] == Bytes(slot)
  {
    var slots, c := Live(st), FindSlot(Live(st), i);
    var slot, r := slots[c], Save(st, d);
    assert Owner(slots, i) == c;
    SectorsEnough(slot.size);
    SavedLayout(st, d);
    forall k | 0 <= k < slot.size ensures LoadData(r, i, slot.size)[k] == slot.data[k] {
      ExtentRead(slot, k);
      assert ContentAt(r, i, k / SECTOR) == Stored(slots, d, i, k / SECTOR);
    }
  }

  /** What the table says about a file's length. */
  function TableSize(e: Entry): nat {
    if HasContent(e) then e.size else 0
  }

  lemma LoadedLive(st: Store, d: Disk)
    requires SlotsFit(Live(st)) && TableSurvives(st)
    ensures Live(Load(Fresh(), Save(st, d))) == LoadSlots(Save(st, d), st.table[..st.count])
  {
    var r := Load(Fresh(), Save(st, d));
    TableRestoredIff(st, d);
    assert r.table[..r.count] == st.table[..st.count];
  }

  lemma LoadedContent(st: Store, d: Disk, i: nat)
    requires SlotsFit(Live(st)) && TableSurvives(st) && i < st.count
    ensures Content(Live(Load(Fresh(), Save(st, d))), i) ==
      if HasContent(st.table[i]) then Bytes(LoadSlot(Save(st, d), st.table[i], i)) else []
  {
    LoadedLive(st, d);
    SlotsLoaded(Save(st, d), st.table[..st.count], i);
  }

  /** A file's bytes come back exactly when the table and the content store agree on its length. */
  lemma ContentRestoredIff(st: Store, d: Disk, i: nat)
    requires SlotsFit(Live(st)) && OneSlotEach(Live(st)) && TableSurvives(st)
    requires i < st.count && st.table[i].size <= FILE_SIZE
    ensures Content(Live(Load(Fresh(), Save(st, d))), i) == Content(Live(st), i)
      <==> |Content(Live(st), i)| == TableSize(st.table[i])
  {
    LoadedContent(st, d, i);
    if FindSlot(Live(st), i) >= 0 {
      DataLoaded(st, d, i);
    }
  }

  /** Saving and booting again restores the directory path, the saved bytes of every entry, the users and
      the bytes of every file, for every store within the limits whose sizes agree. */
  lemma SaveLoadRoundTrip(st: Store, d: Disk)
    requires SlotsFit(Live(st)) && OneSlotEach(Live(st))
    requires DirSurvives(CStr(st.dir)) && TableSurvives(st) && UsersSurvive(st)
    requires forall i :: 0 <= i < st.count ==>
      |Content(Live(st), i)| == TableSize(st.table[i]) && st.table[i].size <= FILE_SIZE
    ensures var r := Load(Fresh(), Save(st, d));
      && CStr(r.dir) == CStr(st.dir) && SameTable(r, st) && SameUsers(r, st)
      && forall i :: 0 <= i < st.count ==> Content(Live(r), i) == Content(Live(st), i)
  {
    DirRestoredIff(st, d);
    TableRestoredIff(st, d);
    UsersRestoredIff(st, d);
    forall i | 0 <= i < st.count ensures Content(Live(Load(Fresh(), Save(st, d))), i) == Content(Live(st), i) {
      ContentRestoredIff(st, d, i);
    }
  }
}
