/** The file table in memory and on disk as `commands.c` changes it, a byte, a row and a sector at a time. */
module FileSystem {
  import opened Machine
  import opened FileStore
  import opened FileCommands
  import N = Numbers

  // ---------------------------------------------------------------- buffers

  /** A sector buffer, zeroed and then filled from the front. */
  method FillSector(sector: array<byte>, b: seq<byte>)
    requires sector.Length == SECTOR && |b| <= SECTOR
    modifies sector
    ensures sector[..] == Pad(b)
  {
    var j := 0;
    while j < SECTOR
      invariant 0 <= j <= SECTOR
      invariant forall k :: 0 <= k < j ==> sector[k] == 0
    {
      sector[j] := 0;
      j := j + 1;
    }
    j := 0;
    while j < |b|
      invariant 0 <= j <= |b|
      invariant forall k :: 0 <= k < SECTOR ==> sector[k] == if k < j then b[k] else 0
    {
      sector[j] := b[j];
      j := j + 1;
    }
  }

  /** `str_len`. */
  method Length(s: seq<byte>) returns (n: nat)
    ensures n == StrLen(s)
  {
    n := 0;
    while n < |s| && s[n] != 0
      invariant 0 <= n <= |s|
      invariant StrLen(s, n) == StrLen(s)
    {
      n := n + 1;
    }
  }

  /** `str_copy`. */
  method CopyString(dst: seq<byte>, src: seq<byte>) returns (r: seq<byte>)
    requires |dst| > 0
    ensures r == StrCopy(dst, src)
  {
    r := dst;
    var i := 0;
    while i < |dst| - 1 && i < |src|
      invariant 0 <= i <= |src| && i <= |dst| - 1 && |r| == |dst|
      invariant r == src[..i] + dst[i..]
    {
      r := r[i := src[i]];
      i := i + 1;
    }
    r := r[i := 0];
  }

  /** The loop of `hash_string`. */
  method Hash(s: seq<byte>) returns (h: nat)
    ensures h == HashString(s)
  {
    h := 5381;
    for i := 0 to |s|
      invariant h == HashString(s[..i])
    {
      assert s[..i + 1][..i] == s[..i];
      h := U32(h * 33 + s[i]);
    }
    assert s[..|s|] == s;
  }

  /** The user that `fs_init_commands` makes when there is none. */
  method DefaultUser(row: User) returns (user: User)
    ensures user == RootUser(row)
  {
    var name := CopyString(row[..32], ROOT);
    var h := Hash(ROOT);
    var hash := [];
    for i := 0 to 32
      invariant |hash| == i && forall k :: 0 <= k < i ==> hash[k] == HashByte(HashString(ROOT), k)
    {
      hash := hash + [HashByte(h, i)];
    }
    assert hash == seq(32, i requires 0 <= i < 32 => HashByte(HashString(ROOT), i));
    user := name + hash;
  }

  /** `str_cmp` of a buffer with a string: zero for equal. */
  method Compare(a: seq<byte>, b: Path) returns (r: int)
    requires Text(b)
    ensures r == 0 <==> CStr(a) == b
  {
    var i := 0;
    while i < |a| && a[i] != 0 && i < |b| && a[i] == b[i]
      invariant 0 <= i <= |a| && i <= |b|
      invariant forall k :: 0 <= k < i ==> a[k] == b[k] && a[k] != 0
    {
      i := i + 1;
    }
    r := At(a, i) - At(b, i);
    CompareStops(a, b, i);
  }

  lemma CompareStops(a: seq<byte>, b: Path, i: nat)
    requires Text(b) && i <= |a| && i <= |b| && forall k :: 0 <= k < i ==> a[k] == b[k] && a[k] != 0
    requires i == |a| || a[i] == 0 || i == |b| || a[i] != b[i]
    ensures At(a, i) == At(b, i) <==> CStr(a) == b
  {
    if At(a, i) == At(b, i) {
      assert i == |b|;
      CStrIs(a, b);
    }
  }

  lemma FindStep(es: seq<Entry>, i: nat, path: Path)
    requires i < |es|
    ensures Find(es[..i + 1], path) ==
      if Find(es[..i], path) >= 0 then Find(es[..i], path) else if CStr(es[i].name) == path then i else -1
  {
    assert es[..i + 1][..i] == es[..i];
  }

  lemma FindDirStep(es: seq<Entry>, i: nat, path: Path)
    requires i < |es|
    ensures FindDir(es[..i + 1], path) ==
      if FindDir(es[..i], path) >= 0 then FindDir(es[..i], path)
      else if CStr(es[i].name) == path && es[i].kind == DIRECTORY then i else -1
  {
    assert es[..i + 1][..i] == es[..i];
  }

  lemma FindStays(es: seq<Entry>, i: nat, path: Path)
    requires i <= |es| && Find(es[..i], path) >= 0
    ensures Find(es, path) == Find(es[..i], path)
  {
  }

  lemma FindDirStays(es: seq<Entry>, i: nat, path: Path)
    requires i <= |es| && FindDir(es[..i], path) >= 0
    ensures FindDir(es, path) == FindDir(es[..i], path)
  {
  }

  // ---------------------------------------------------------------- sectors

  lemma LastSector(slot: Slot, s: nat)
    requires slot.size <= FILE_SIZE && SECTOR * s >= slot.size && s > 0
    ensures ContentSector(slot, s) == ZERO_SECTOR
  {
  }

  lemma PadNothing()
    ensures Pad([]) == ZERO_SECTOR
  {
  }

  lemma FirstSectors(slot: Slot, s: nat)
    requires slot.size <= FILE_SIZE && (SECTOR * s < slot.size || s == 0)
    ensures ContentSector(slot, s) == Pad(slot.data[SECTOR * s..SECTOR * s + Min(slot.size - SECTOR * s, SECTOR)])
  {
  }

  lemma SlotsStep(d: Disk, slots: seq<Slot>, c: nat)
    requires SlotsFit(slots) && c < |slots|
    ensures WriteSlots(d, slots[..c + 1]) ==
      WriteRun(WriteSlots(d, slots[..c]), CONTENT_LBA + EXTENT * slots[c].file, ContentSectors(slots[c]))
  {
    assert slots[..c + 1][..c] == slots[..c];
  }

  /** The first `j` bytes of a buffer have been replaced. */
  ghost predicate Overlaid(now: seq<byte>, was: seq<byte>, from: seq<byte>, j: nat) {
    && |now| == |was| == DIR_SIZE <= |from|
    && forall k :: 0 <= k < DIR_SIZE ==> now[k] == if k < j then from[k] else was[k]
  }

  lemma OverlaidAll(now: seq<byte>, was: seq<byte>, s: Sector, j: nat)
    requires |now| == |was| == DIR_SIZE && j == StrLen(s[..DIR_SIZE]) && s[0] == 'C' as int && s[1] == ':' as int
    requires now[DIR_SIZE - 1] == 0
    requires forall k :: 0 <= k < DIR_SIZE - 1 ==> now[k] == if k < j then s[k] else was[k]
    ensures now == LoadDir(was, s)
  {
  }

  lemma RowLoaded(table: seq<Entry>, d: Disk, i: nat)
    requires |table| == MAX_FILES && i < LOADED_FILES
    ensures LoadTable(table, d, i)[i := ParseEntry(TableAt(d, i))] == LoadTable(table, d, i + 1)
  {
  }

  /** A list in front of what an array held before. */
  lemma FrontGrows<T>(l: seq<T>, was: seq<T>, x: T)
    requires |l| < |was|
    ensures (l + was[|l|..])[|l| := x] == (l + [x]) + was[|l| + 1..]
  {
  }

  lemma SameRow(k: nat, s: nat)
    requires SECTOR * s <= k < SECTOR * s + SECTOR
    ensures k / SECTOR == s && k % SECTOR == k - SECTOR * s
  {
  }

  /** The first `n` bytes have been read from a file's extent. */
  ghost predicate Loaded(data: seq<byte>, d: Disk, file: nat, n: nat) {
    && |data| == FILE_SIZE
    && forall k :: 0 <= k < FILE_SIZE ==> data[k] == if k < n then ContentAt(d, file, k / SECTOR)[k % SECTOR] else 0
  }

  lemma LoadedAll(data: seq<byte>, d: Disk, file: nat, size: nat)
    requires Loaded(data, d, file, LoadSize(size))
    ensures data == LoadData(d, file, size)
  {
  }

  lemma LoadStep(data: seq<byte>, d: Disk, file: nat, s: nat, j: nat)
    requires Loaded(data, d, file, SECTOR * s + j) && j < SECTOR && SECTOR * s + j < FILE_SIZE
    ensures Loaded(data[SECTOR * s + j := ContentAt(d, file, s)[j]], d, file, SECTOR * s + j + 1)
  {
    SameRow(SECTOR * s + j, s);
  }

  lemma UserLoaded(d: Disk, i: nat)
    ensures LoadUsers(d, i + 1) ==
      if UserAt(d, i)[0] != 0 then LoadUsers(d, i) + [UserAt(d, i)[..ENTRY_SIZE]] else LoadUsers(d, i)
  {
  }

  lemma SlotLoaded(d: Disk, table: seq<Entry>, i: nat)
    requires i < |table| <= LOADED_FILES
    ensures LoadSlots(d, table[..i + 1]) ==
      if HasContent(table[i]) then LoadSlots(d, table[..i]) + [LoadSlot(d, table[i], i)] else LoadSlots(d, table[..i])
  {
    assert table[..i + 1][..i] == table[..i];
    LoadSnoc(d, table[..i + 1]);
  }

  // ---------------------------------------------------------------- memory and disk

  class Files {
    const dir: array<byte>
    const table: array<Entry>
    const users: array<User>
    const slots: array<Slot>
    var count: nat
    var userCount: nat
    var slotCount: nat
    var disk: Disk

    predicate Valid() reads this {
      && dir.Length == DIR_SIZE && table.Length == MAX_FILES && users.Length == MAX_USERS && slots.Length == MAX_SLOTS
      && count <= MAX_FILES && userCount <= MAX_USERS && slotCount <= MAX_SLOTS
    }

    ghost function State(): Store
      requires Valid()
      reads this, dir, table, users, slots
    {
      Store(dir[..], table[..], count, users[..], userCount, slots[..], slotCount)
    }

    // ---- saving

    /** One sector is filled and written. */
    method WriteSector(sector: array<byte>, lba: nat, b: seq<byte>)
      requires sector.Length == SECTOR && |b| <= SECTOR
      modifies this`disk, sector
      ensures disk == old(disk)[lba := Pad(b)]
    {
      FillSector(sector, b);
      disk := disk[lba := sector[..]];
    }

    /** The loops that clear the rest of a region: sectors `from` to `to`. */
    method ClearRest(sector: array<byte>, lba: nat, from: nat, to: nat, ghost was: Disk, ghost ss: seq<Sector>)
      requires sector.Length == SECTOR && from <= |ss| && |ss| == (if from < to then to else from)
      requires forall i :: from <= i < |ss| ==> ss[i] == ZERO_SECTOR
      requires disk == WriteRun(was, lba, ss[..from])
      modifies this`disk, sector
      ensures disk == WriteRun(was, lba, ss)
    {
      PadNothing();
      var i := from;
      while i < to
        invariant from <= i <= |ss|
        invariant disk == WriteRun(was, lba, ss[..i])
      {
        WriteSector(sector, lba + i, []);
        WriteNext(was, lba, ss, i);
        i := i + 1;
      }
      assert ss[..i] == ss;
    }

    method SaveTable(sector: array<byte>)
      requires Valid() && sector.Length == SECTOR && sector != dir
      modifies this`disk, sector
      ensures disk == WriteRun(old(disk), TABLE_LBA, TableSectors(State()))
    {
      ghost var ss, was := TableSectors(State()), disk;
      var i := 0;
      while i < count
        invariant 0 <= i <= count
        invariant disk == WriteRun(was, TABLE_LBA, ss[..i])
      {
        WriteSector(sector, TABLE_LBA + i, EntryBytes(table[i]));
        WriteNext(was, TABLE_LBA, ss, i);
        i := i + 1;
      }
      ClearRest(sector, TABLE_LBA, i, LOADED_FILES, was, ss);
    }

    method SaveUsers(sector: array<byte>)
      requires Valid() && sector.Length == SECTOR && sector != dir
      modifies this`disk, sector
      ensures disk == WriteRun(old(disk), USER_LBA, UserSectors(State()))
    {
      ghost var ss, was := UserSectors(State()), disk;
      var i := 0;
      while i < userCount
        invariant 0 <= i <= userCount
        invariant disk == WriteRun(was, USER_LBA, ss[..i])
      {
        WriteSector(sector, USER_LBA + i, users[i]);
        WriteNext(was, USER_LBA, ss, i);
        i := i + 1;
      }
      ClearRest(sector, USER_LBA, i, LOADED_USERS, was, ss);
    }

    method SaveSlot(slot: Slot, sector: array<byte>)
      requires slot.size <= FILE_SIZE && sector.Length == SECTOR
      modifies this`disk, sector
      ensures disk == WriteRun(old(disk), CONTENT_LBA + EXTENT * slot.file, ContentSectors(slot))
    {
      ghost var ss, was := ContentSectors(slot), disk;
      var lba := CONTENT_LBA + EXTENT * slot.file;
      var needed := (slot.size + 511) / 512;
      if needed == 0 {
        needed := 1;
      }
      var s := 0;
      while s < needed && s < EXTENT
        invariant 0 <= s <= EXTENT && s <= needed
        invariant disk == WriteRun(was, lba, ss[..s])
      {
        var toCopy := Min(slot.size - SECTOR * s, SECTOR);
        WriteSector(sector, lba + s, slot.data[SECTOR * s..SECTOR * s + toCopy]);
        FirstSectors(slot, s);
        WriteNext(was, lba, ss, s);
        s := s + 1;
      }
      forall i | s <= i < EXTENT ensures ss[i] == ZERO_SECTOR {
        LastSector(slot, i);
      }
      ClearRest(sector, lba, s, EXTENT, was, ss);
    }

    method SaveContents(sector: array<byte>)
      requires Valid() && SlotsFit(Live(State())) && sector.Length == SECTOR && sector != dir
      modifies this`disk, sector
      ensures disk == WriteSlots(old(disk), Live(State()))
    {
      ghost var live, was := Live(State()), disk;
      var c := 0;
      while c < slotCount
        invariant 0 <= c <= slotCount
        invariant disk == WriteSlots(was, live[..c])
      {
        assert slots[c] == live[c];
        SaveSlot(slots[c], sector);
        SlotsStep(was, live, c);
        c := c + 1;
      }
      assert live[..c] == live;
    }

    /** `fs_save_to_disk`. */
    method SaveToDisk()
      requires Valid() && SlotsFit(Live(State()))
      modifies this`disk
      ensures disk == Save(State(), old(disk))
    {
      var sector := new byte[SECTOR];
      var n := Length(dir[..]);
      WriteSector(sector, DIR_LBA, dir[..n]);
      SaveTable(sector);
      SaveUsers(sector);
      SaveContents(sector);
    }

    // ---- loading

    method LoadDirectory()
      requires Valid()
      modifies dir
      ensures dir[..] == LoadDir(old(dir[..]), Read(disk, DIR_LBA))
    {
      var sector := Read(disk, DIR_LBA);
      if sector[0] == 'C' as int && sector[1] == ':' as int {
        ghost var was, s := dir[..], sector[..DIR_SIZE];
        var j := 0;
        while j < DIR_SIZE && sector[j] != 0
          invariant 0 <= j <= DIR_SIZE
          invariant StrLen(s, j) == StrLen(s)
          invariant Overlaid(dir[..], was, sector, j)
        {
          assert s[j] == sector[j];
          dir[j] := sector[j];
          j := j + 1;
        }
        assert j < DIR_SIZE ==> s[j] == sector[j];
        dir[DIR_SIZE - 1] := 0;
        OverlaidAll(dir[..], was, sector, j);
      }
    }

    method LoadRows()
      requires Valid()
      modifies this`count, table
      ensures count == LoadCount(disk) && table[..] == LoadTable(old(table[..]), disk, count)
    {
      ghost var was := table[..];
      count := 0;
      assert table[..] == LoadTable(was, disk, 0);
      while count < LOADED_FILES
        invariant 0 <= count <= LOADED_FILES && LoadCount(disk, count) == LoadCount(disk)
        invariant table[..] == LoadTable(was, disk, count)
      {
        var sector := TableAt(disk, count);
        if sector[0] == 0 {
          break;
        }
        RowLoaded(was, disk, count);
        table[count] := ParseEntry(sector);
        count := count + 1;
      }
    }

    method LoadUserRows()
      requires Valid()
      modifies this`userCount, users
      ensures Valid() && userCount == |LoadUsers(disk, LOADED_USERS)|
      ensures users[..] == LoadUsers(disk, LOADED_USERS) + old(users[..])[userCount..]
    {
      ghost var was := users[..];
      userCount := 0;
      var i := 0;
      while i < LOADED_USERS
        invariant Valid() && 0 <= i <= LOADED_USERS && userCount == |LoadUsers(disk, i)|
        invariant users[..] == LoadUsers(disk, i) + was[userCount..]
      {
        LoadUserRow(i, was);
        i := i + 1;
      }
    }

    /** One pass of the user loop. */
    method LoadUserRow(i: nat, ghost was: seq<User>)
      requires Valid() && i < LOADED_USERS && |was| == MAX_USERS
      requires userCount == |LoadUsers(disk, i)| && users[..] == LoadUsers(disk, i) + was[userCount..]
      modifies this`userCount, users
      ensures Valid()
      ensures userCount == |LoadUsers(disk, i + 1)| && users[..] == LoadUsers(disk, i + 1) + was[userCount..]
    {
      var sector := UserAt(disk, i);
      UserLoaded(disk, i);
      if sector[0] != 0 {
        FrontGrows(LoadUsers(disk, i), was, sector[..ENTRY_SIZE]);
        users[userCount] := sector[..ENTRY_SIZE];
        userCount := userCount + 1;
      }
    }

    /** The bytes of one sector, as many as fit. */
    method TakeSector(data: array<byte>, file: nat, s: nat, toCopy: nat, start: nat) returns (total: nat)
      requires toCopy <= SECTOR && start <= FILE_SIZE && (start == SECTOR * s || start == FILE_SIZE)
      requires Loaded(data[..], disk, file, start)
      modifies data
      ensures total == Min(start + toCopy, FILE_SIZE) && Loaded(data[..], disk, file, total)
    {
      var sector := ContentAt(disk, file, s);
      total := start;
      var j := 0;
      while j < toCopy && total < FILE_SIZE
        invariant 0 <= j <= toCopy && start <= total <= FILE_SIZE
        invariant if start == FILE_SIZE then total == start else total == start + j
        invariant data.Length == FILE_SIZE && Loaded(data[..], disk, file, total)
      {
        LoadStep(data[..], disk, file, s, j);
        data[total] := sector[j];
        total, j := total + 1, j + 1;
      }
    }

    /** The contents of a file of this size, read from its extent. */
    method ReadContent(file: nat, size: nat) returns (bytes: seq<byte>)
      requires 0 < size < TWO_32
      ensures bytes == LoadData(disk, file, size)
    {
      var needed := U32(size + 511) / 512;
      if needed == 0 {
        needed := 1;
      }
      var data := new byte[FILE_SIZE](_ => 0);
      var total, s := 0, 0;
      while s < needed && s < EXTENT
        invariant 0 <= s <= needed && s <= EXTENT
        invariant total == Min(LoadSize(size), SECTOR * s)
        invariant Loaded(data[..], disk, file, total)
      {
        var toCopy := Min(size - total, SECTOR);
        total := TakeSector(data, file, s, toCopy, total);
        s := s + 1;
      }
      LoadedAll(data[..], disk, file, size);
      bytes := data[..];
    }

    /** One pass of the content loop. */
    method LoadContent(i: nat, ghost es: seq<Entry>, ghost was: seq<Slot>)
      requires Valid() && i < |es| <= LOADED_FILES && table[i] == es[i] && |was| == MAX_SLOTS
      requires slotCount == |LoadSlots(disk, es[..i])| && slots[..] == LoadSlots(disk, es[..i]) + was[slotCount..]
      modifies this`slotCount, slots
      ensures Valid()
      ensures slotCount == |LoadSlots(disk, es[..i + 1])|
      ensures slots[..] == LoadSlots(disk, es[..i + 1]) + was[slotCount..]
    {
      SlotLoaded(disk, es, i);
      if HasContent(table[i]) {
        var data := ReadContent(i, table[i].size);
        FrontGrows(LoadSlots(disk, es[..i]), was, LoadSlot(disk, es[i], i));
        slots[slotCount] := Slot(i, table[i].size, data);
        slotCount := slotCount + 1;
      }
    }

    method LoadContents()
      requires Valid() && count <= LOADED_FILES
      modifies this`slotCount, slots
      ensures Valid() && slotCount == |LoadSlots(disk, table[..count])|
      ensures slots[..] == LoadSlots(disk, table[..count]) + old(slots[..])[slotCount..]
    {
      ghost var was, es := slots[..], table[..count];
      slotCount := 0;
      assert es[..0] == [];
      var i := 0;
      while i < count && slotCount < MAX_SLOTS
        invariant Valid() && 0 <= i <= count && slotCount == |LoadSlots(disk, es[..i])|
        invariant slots[..] == LoadSlots(disk, es[..i]) + was[slotCount..]
      {
        LoadContent(i, es, was);
        i := i + 1;
      }
      assert es[..i] == es;
    }

    /** `fs_load_from_disk`. */
    method LoadFromDisk()
      requires Valid()
      modifies this`count, this`userCount, this`slotCount, dir, table, users, slots
      ensures Valid() && State() == Load(old(State()), disk)
    {
      LoadDirectory();
      LoadRows();
      LoadUserRows();
      LoadContents();
    }

    /** Memory before the first load, and a disk. */
    constructor (d: Disk)
      ensures Valid() && State() == Fresh() && disk == d
      ensures fresh(dir) && fresh(table) && fresh(users) && fresh(slots)
    {
      var f := Fresh();
      dir := new byte[DIR_SIZE](i requires 0 <= i < DIR_SIZE => f.dir[i]);
      table := new Entry[MAX_FILES](_ => Entry(Zeros(NAME_SIZE), 0, 0, 0, 0));
      users := new User[MAX_USERS](_ => Zeros(ENTRY_SIZE));
      slots := new Slot[MAX_SLOTS](_ => Slot(0, 0, Zeros(FILE_SIZE)));
      count, userCount, slotCount, disk := 0, 0, 0, d;
    }

    method ClearSlots()
      requires Valid()
      modifies slots
      ensures slots[..] == Fresh().slots
    {
      var i := 0;
      while i < MAX_SLOTS
        invariant 0 <= i <= MAX_SLOTS
        invariant forall k :: 0 <= k < i ==> slots[k] == Slot(0, 0, Zeros(FILE_SIZE))
      {
        slots[i] := Slot(0, 0, Zeros(FILE_SIZE));
        i := i + 1;
      }
    }

    /** `fs_init_commands`. */
    method InitCommands()
      requires Valid()
      modifies this`count, this`userCount, this`slotCount, dir, table, users, slots
      ensures Valid() && State() == Init(old(State()), disk)
    {
      count, userCount, slotCount := 0, 0, 0;
      ClearSlots();
      LoadFromDisk();
      if userCount == 0 {
        users[0] := DefaultUser(users[0]);
        userCount := 1;
      }
    }

    // ---- commands

    /** The search that every command makes. */
    method Search(path: Path) returns (idx: int)
      requires Valid() && Text(path)
      ensures idx == Find(Entries(State()), path)
    {
      ghost var es := Entries(State());
      idx := -1;
      var i := 0;
      while i < count
        invariant 0 <= i <= count && Find(es[..i], path) < 0
      {
        var r := Compare(table[i].name, path);
        FindStep(es, i, path);
        if r == 0 {
          FindStays(es, i + 1, path);
          idx := i;
          return;
        }
        i := i + 1;
      }
      assert es[..i] == es;
    }

    method FullPath(name: Path) returns (path: Path)
      requires Valid()
      ensures path == CStr(State().dir) + name
    {
      var n := Length(dir[..]);
      path := dir[..n] + name;
    }

    /** The common part of `cmd_mkdir` and `cmd_touch`; `known` is the result for a path that is taken. */
    method CreateEntry(name: Path, kind: byte, attr: byte, known: int) returns (code: int)
      requires Valid() && Token(name) && SlotsFit(Live(State())) && |CStr(State().dir)| + |name| < DIR_SIZE
      modifies this`count, this`disk, table
      ensures Valid() && State() == Create(old(State()), name, kind, attr).0
      ensures var created := Create(old(State()), name, kind, attr).1;
        && disk == (if created then Save(State(), old(disk)) else old(disk))
        && code == if created then 0 else if name == [] || old(count) >= MAX_FILES then -1 else known
    {
      if name == [] || count >= MAX_FILES {
        return -1;
      }
      var path := FullPath(name);
      var idx := Search(path);
      if idx >= 0 {
        return known;
      }
      var stored := CopyString(table[count].name, path);
      table[count] := table[count].(name := stored, size := 0, kind := kind, attr := attr);
      count := count + 1;
      SaveToDisk();
      return 0;
    }

    /** `cmd_mkdir`. */
    method MakeDirectory(name: Path) returns (code: int)
      requires Valid() && Token(name) && SlotsFit(Live(State())) && |CStr(State().dir)| + |name| < DIR_SIZE
      modifies this`count, this`disk, table
      ensures Valid() && var (st, created) := Create(old(State()), name, DIRECTORY, DIR_ATTR);
        && State() == st && code == (if created then 0 else -1)
        && disk == if created then Save(st, old(disk)) else old(disk)
    {
      code := CreateEntry(name, DIRECTORY, DIR_ATTR, -1);
    }

    /** `cmd_touch`. */
    method TouchFile(name: Path) returns (code: int)
      requires Valid() && Token(name) && SlotsFit(Live(State())) && |CStr(State().dir)| + |name| < DIR_SIZE
      modifies this`count, this`disk, table
      ensures Valid() && var (st, created) := Create(old(State()), name, FILE, FILE_ATTR);
        && State() == st && disk == (if created then Save(st, old(disk)) else old(disk))
        && code == if name == [] || (old(count) >= MAX_FILES && !created) then -1 else 0
    {
      code := CreateEntry(name, FILE, FILE_ATTR, 0);
    }

    method SearchDirectory(path: Path) returns (idx: int)
      requires Valid() && Text(path)
      ensures idx == FindDir(Entries(State()), path)
    {
      ghost var es := Entries(State());
      idx := -1;
      var i := 0;
      while i < count
        invariant 0 <= i <= count && FindDir(es[..i], path) < 0
      {
        var r := Compare(table[i].name, path);
        FindDirStep(es, i, path);
        if r == 0 && table[i].kind == DIRECTORY {
          FindDirStays(es, i + 1, path);
          idx := i;
          return;
        }
        i := i + 1;
      }
      assert es[..i] == es;
    }

    /** The backward loop of `cmd_cd ..`. */
    method CutDirectory()
      requires Valid()
      modifies dir
      ensures dir[..] == CutDir(old(dir[..]))
    {
      ghost var was := dir[..];
      var n := Length(dir[..]);
      if n > 3 {
        var i := n - 2;
        while i >= 0
          invariant -1 <= i <= n - 2 && dir[..] == was && LastSlash(was, n - 2) == LastSlash(was, i)
        {
          if dir[i] == BACKSLASH {
            dir[i + 1] := 0;
            return;
          }
          i := i - 1;
        }
      }
    }

    method CopyPath(path: Path)
      requires Valid() && |path| < DIR_SIZE
      modifies dir
      ensures dir[..] == StrCopy(old(dir[..]), path)
    {
      ghost var was := dir[..];
      var i := 0;
      while i < |path|
        invariant 0 <= i <= |path|
        invariant forall k :: 0 <= k < DIR_SIZE ==> dir[k] == if k < i then path[k] else was[k]
      {
        dir[i] := path[i];
        i := i + 1;
      }
      dir[i] := 0;
    }

    method EnterDirectory(path: Path)
      requires Valid() && 0 < |path| < DIR_SIZE - 1
      modifies dir
      ensures dir[..] == EnterDir(old(dir[..]), path)
    {
      CopyPath(path);
      var n := |path|;
      if dir[n - 1] != BACKSLASH {
        dir[n] := BACKSLASH;
        dir[n + 1] := 0;
      }
    }

    /** `cmd_cd`. */
    method ChangeDirectory(name: Path) returns (code: int)
      requires Valid() && Token(name) && SlotsFit(Live(State())) && |CStr(State().dir)| + |name| < DIR_SIZE - 1
      modifies this`disk, dir
      ensures Valid() && var (st, changed) := ChangeDir(old(State()), name);
        && State() == st && disk == (if changed then Save(st, old(disk)) else old(disk))
        && code == if changed || name == [] then 0 else -1
    {
      if name == [] {
        return 0;
      }
      if name == DOTS {
        CutDirectory();
        SaveToDisk();
        return 0;
      }
      var path := FullPath(name);
      var idx := SearchDirectory(path);
      if idx < 0 {
        return -1;
      }
      EnterDirectory(path);
      SaveToDisk();
      return 0;
    }

    /** `cmd_chmod`. */
    method ChangeAttributes(mode: Path, name: Path) returns (code: int)
      requires Valid() && Token(mode) && Token(name) && SlotsFit(Live(State()))
      modifies this`disk, table
      ensures Valid() && State() == ChangeMode(old(State()), mode, name).0
      ensures code == if ChangeMode(old(State()), mode, name).1 then 0 else -1
      ensures disk == if code == 0 then Save(State(), old(disk)) else old(disk)
    {
      code := -1;
      if mode == [] || name == [] {
        return;
      }
      var attr := N.StrToInt(mode);
      var i := Search(name);
      if i >= 0 {
        table[i] := table[i].(attr := attr % 0x100);
        SaveToDisk();
        code := 0;
      }
    }

    /** `cmd_format`. */
    method FormatDisk(key: byte)
      requires Valid() && SlotsFit(Live(State()))
      modifies this`count, this`slotCount, this`disk
      ensures Valid() && State() == Erase(old(State()), key).0
      ensures disk == if IsYes(key) then Save(State(), old(disk)) else old(disk)
    {
      if key == 'Y' as int || key == 'y' as int {
        count, slotCount := 0, 0;
        SaveToDisk();
      }
    }

    // ---- contents

    method SearchSlot(file: nat) returns (idx: int)
      requires Valid()
      ensures idx == FindSlot(Live(State()), file)
    {
      ghost var live := Live(State());
      idx := -1;
      var i := 0;
      while i < slotCount
        invariant 0 <= i <= slotCount
        invariant forall k :: 0 <= k < i ==> live[k].file != file
      {
        assert slots[i] == live[i];
        if slots[i].file == file {
          idx := i;
          return;
        }
        i := i + 1;
      }
    }

    /** The data loop of `save_file_content`. */
    method CopyData(c: nat, file: nat, data: seq<byte>)
      requires Valid() && c < MAX_SLOTS && file < TWO_16
      modifies slots
      ensures slots[..] == SetData(old(slots[..]), c, file, data)
    {
      var n := Min(|data|, FILE_SIZE);
      var buffer := slots[c].data;
      var k := 0;
      while k < n
        invariant 0 <= k <= n
        invariant buffer == data[..k] + slots[c].data[k..]
      {
        buffer := buffer[k := data[k]];
        k := k + 1;
      }
      slots[c] := Slot(file, n, buffer);
    }

    method PutContent(i: nat, data: seq<byte>) returns (code: int)
      requires Valid() && i < MAX_FILES
      modifies this`slotCount, slots
      ensures Valid() && (State(), code) == PutData(old(State()), i, data)
    {
      var c := SearchSlot(i);
      if c < 0 {
        if slotCount >= MAX_SLOTS {
          return -1;
        }
        c := slotCount;
        slotCount := slotCount + 1;
      }
      CopyData(c, i, data);
      return 0;
    }

    /** The entry for a path, made if there is none. */
    method EnterFile(path: Path) returns (i: int)
      requires Valid() && Text(path)
      modifies this`count, table
      ensures Valid()
      ensures i < 0 <==> Find(Entries(old(State())), path) < 0 && old(count) >= MAX_FILES
      ensures i < 0 ==> State() == old(State())
      ensures i >= 0 ==> (State(), i) == Entered(old(State()), path)
    {
      i := Search(path);
      if i < 0 && count < MAX_FILES {
        i := count;
        var stored := CopyString(table[i].name, path);
        table[i] := table[i].(name := stored, size := 0, kind := FILE, attr := 0, parent := NO_PARENT);
        count := count + 1;
      }
    }

    /** `save_file_content`. */
    method SaveFileContent(name: Path, data: seq<byte>) returns (code: int)
      requires Valid() && Text(name) && |data| < 0x8000_0000
      requires IsRelative(name) ==> |CStr(State().dir)| + |name| < DIR_SIZE
      modifies this`count, this`slotCount, table, slots
      ensures Valid() && (State(), code) == SaveContent(old(State()), name, data)
    {
      var path;
      if IsRelative(name) {
        path := FullPath(name);
      } else {
        path := name[..Min(|name|, 255)];
      }
      var i := EnterFile(path);
      if i < 0 {
        return -1;
      }
      table[i] := table[i].(size := |data|);
      code := PutContent(i, data);
    }
  }
}
