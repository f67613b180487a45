/** What a file store means, and that every run of commands and reboots does to it what it does to a
    volume that maps paths to files. */
module FileRuns {
  import opened Machine
  import opened FileStore
  import opened FileCommands

  // ---------------------------------------------------------------- what a store means

  datatype Record = Record(path: Path, node: Node)

  function RecordOf(e: Entry, bytes: seq<byte>): Record {
    Record(CStr(e.name), Node(e.kind, e.attr, bytes))
  }

  function Listing(es: seq<Entry>, slots: seq<Slot>): (r: seq<Record>)
    ensures |r| == |es|
  {
    seq(|es|, i requires 0 <= i < |es| => RecordOf(es[i], Content(slots, i)))
  }

  function FileMap(l: seq<Record>): map<Path, Node> {
    if l == [] then map[] else FileMap(l[..|l| - 1])[l[|l| - 1].path := l[|l| - 1].node]
  }

  /** The volume that a store stands for. */
  function View(st: Store): Volume {
    Volume(CStr(st.dir), st.users[..st.userCount], FileMap(Listing(Entries(st), Live(st))))
  }

  predicate Distinct(l: seq<Record>) {
    forall a, b :: 0 <= a < b < |l| ==> l[a].path != l[b].path
  }

  lemma {:induction false} MapLookup(l: seq<Record>, i: nat)
    requires Distinct(l) && i < |l|
    ensures l[i].path in FileMap(l) && FileMap(l)[l[i].path] == l[i].node
  {
    if i < |l| - 1 {
      MapLookup(l[..|l| - 1], i);
    }
  }

  lemma {:induction false} MapKey(l: seq<Record>, p: Path) returns (i: nat)
    requires p in FileMap(l)
    ensures i < |l| && l[i].path == p
  {
    var n := |l| - 1;
    if l[n].path == p {
      i := n;
    } else {
      i := MapKey(l[..n], p);
    }
  }

  lemma {:induction false} MapSize(l: seq<Record>)
    requires Distinct(l)
    ensures |FileMap(l)| == |l|
  {
    if l != [] {
      var n := |l| - 1;
      MapSize(l[..n]);
      if l[n].path in FileMap(l[..n]) {
        var i := MapKey(l[..n], l[n].path);
      }
    }
  }

  lemma {:induction false} MapUpdate(l: seq<Record>, k: nat, node: Node)
    requires Distinct(l) && k < |l|
    ensures FileMap(l[k := Record(l[k].path, node)]) == FileMap(l)[l[k].path := node]
  {
    var n := |l| - 1;
    var u := l[k := Record(l[k].path, node)];
    if k < n {
      MapUpdate(l[..n], k, node);
      assert u[..n] == l[..n][k := Record(l[k].path, node)];
    } else {
      assert u[..n] == l[..n];
    }
  }

  // ---------------------------------------------------------------- the invariant

  predicate NamesOk(es: seq<Entry>) {
    forall i :: 0 <= i < |es| ==> Named(es[i].name) && |CStr(es[i].name)| <= MAX_PATH
  }

  predicate Unique(es: seq<Entry>) {
    forall a, b :: 0 <= a < b < |es| ==> CStr(es[a].name) != CStr(es[b].name)
  }

  /** Each slot belongs to a file, and both agree on the size. */
  predicate SlotsOk(es: seq<Entry>, slots: seq<Slot>) {
    forall c :: 0 <= c < |slots| ==> SlotOk(es, slots[c])
  }

  predicate SlotOk(es: seq<Entry>, s: Slot) {
    s.file < |es| && es[s.file].kind == FILE && s.size == es[s.file].size && s.size <= FILE_SIZE
  }

  /** Whatever has a size is a file with a slot. */
  predicate Backed(es: seq<Entry>, slots: seq<Slot>) {
    forall i :: 0 <= i < |es| && es[i].size > 0 ==> es[i].kind == FILE && FindSlot(slots, i) >= 0
  }

  predicate DirOk(dir: Path) {
    3 <= |dir| <= MAX_PATH + 1 && dir[..3] == ROOT_DIR
  }

  predicate FilesOk(es: seq<Entry>, slots: seq<Slot>) {
    && |es| <= LOADED_FILES && NamesOk(es) && Unique(es)
    && SlotsOk(es, slots) && OneSlotEach(slots) && Backed(es, slots)
  }

  predicate Inv(st: Store) {
    && FilesOk(Entries(st), Live(st))
    && DirOk(CStr(st.dir)) && UsersSurvive(st) && st.userCount > 0
  }

  lemma ListingDistinct(es: seq<Entry>, slots: seq<Slot>)
    requires Unique(es)
    ensures Distinct(Listing(es, slots))
  {
  }

  lemma {:induction false} SlotsFew(es: seq<Entry>, slots: seq<Slot>) returns (files: set<nat>)
    requires SlotsOk(es, slots) && OneSlotEach(slots)
    ensures |files| == |slots| && forall f :: f in files <==> FindSlot(slots, f) >= 0
  {
    if slots == [] {
      files := {};
    } else {
      var n := |slots| - 1;
      var before := SlotsFew(es, slots[..n]);
      files := before + {slots[n].file};
    }
  }

  lemma {:induction false} Interval(n: nat) returns (s: set<nat>)
    ensures |s| == n && forall x :: x in s <==> 0 <= x < n
  {
    if n == 0 {
      s := {};
    } else {
      var t := Interval(n - 1);
      s := t + {n - 1};
    }
  }

  lemma Smaller(a: set<nat>, b: set<nat>)
    requires a <= b
    ensures |a| <= |b|
  {
    assert b == a + (b - a);
  }

  /** A file without a slot always finds the content store with room for one. */
  lemma RoomForSlot(es: seq<Entry>, slots: seq<Slot>, i: nat)
    requires SlotsOk(es, slots) && OneSlotEach(slots) && i < |es| && FindSlot(slots, i) < 0
    ensures |slots| < |es|
  {
    var files := SlotsFew(es, slots);
    var all := Interval(|es|);
    forall f | f in files ensures f in all {
      assert slots[FindSlot(slots, f)].file == f;
    }
    Smaller(files + {i}, all);
  }

  // ---------------------------------------------------------------- what each change keeps

  lemma NewName(es: seq<Entry>, e: Entry)
    requires NamesOk(es) && Unique(es)
    requires Named(e.name) && |CStr(e.name)| <= MAX_PATH && Find(es, CStr(e.name)) < 0
    ensures NamesOk(es + [e]) && Unique(es + [e])
  {
    assert forall k :: 0 <= k < |es| ==> (es + [e])[k] == es[k] && CStr(es[k].name) != CStr(e.name);
  }

  lemma NoSlotYet(es: seq<Entry>, slots: seq<Slot>)
    requires SlotsOk(es, slots)
    ensures FindSlot(slots, |es|) < 0
  {
    var c := FindSlot(slots, |es|);
    assert c >= 0 ==> SlotOk(es, slots[c]);
  }

  lemma NewEntry(es: seq<Entry>, slots: seq<Slot>, e: Entry)
    requires FilesOk(es, slots) && |es| < LOADED_FILES
    requires Named(e.name) && |CStr(e.name)| <= MAX_PATH && Find(es, CStr(e.name)) < 0 && e.size == 0
    ensures FilesOk(es + [e], slots)
  {
    NewName(es, e);
    var more := es + [e];
    forall c | 0 <= c < |slots| ensures SlotOk(more, slots[c]) {
      assert SlotOk(es, slots[c]);
    }
    forall i | 0 <= i < |more| && more[i].size > 0 ensures more[i].kind == FILE && FindSlot(slots, i) >= 0 {
      assert more[i] == es[i];
    }
  }

  lemma NewEntryListing(es: seq<Entry>, slots: seq<Slot>, e: Entry)
    requires SlotsOk(es, slots)
    ensures Listing(es + [e], slots) == Listing(es, slots) + [RecordOf(e, [])]
  {
    NoSlotYet(es, slots);
  }

  lemma NewMode(es: seq<Entry>, slots: seq<Slot>, i: nat, attr: byte)
    requires FilesOk(es, slots) && i < |es|
    ensures var f := es[i := es[i].(attr := attr)];
      && FilesOk(f, slots)
      && var l := Listing(es, slots); Listing(f, slots) == l[i := Record(l[i].path, l[i].node.(attr := attr))]
  {
    var f := es[i := es[i].(attr := attr)];
    forall c | 0 <= c < |slots| ensures SlotOk(f, slots[c]) {
      assert SlotOk(es, slots[c]);
    }
    assert forall k :: 0 <= k < |es| ==> f[k].name == es[k].name && f[k].size == es[k].size && f[k].kind == es[k].kind;
  }

  /** `now` is `slots` with the bytes of file `i` replaced. */
  ghost predicate Replaced(slots: seq<Slot>, now: seq<Slot>, i: nat, data: seq<byte>) {
    && OneSlotEach(now)
    && (forall c :: 0 <= c < |now| ==> if now[c].file == i then now[c].size == |data| else now[c] in slots)
    && (forall f :: 0 <= f ==> (FindSlot(now, f) >= 0 <==> f == i || FindSlot(slots, f) >= 0))
    && (forall f :: 0 <= f ==> Content(now, f) == if f == i then data else Content(slots, f))
  }

  lemma ReplacedInPlace(slots: seq<Slot>, c: nat, s: Slot)
    requires OneSlotEach(slots) && c < |slots| && s.file == slots[c].file && s.size <= FILE_SIZE
    ensures Replaced(slots, slots[c := s], s.file, Bytes(s))
  {
    var now := slots[c := s];
    assert forall k :: 0 <= k < |now| ==> now[k].file == slots[k].file;
    forall f | 0 <= f ensures FindSlot(now, f) == FindSlot(slots, f) {}
    forall k | 0 <= k < |now| ensures if now[k].file == s.file then now[k] == s else now[k] in slots {}
    assert FindSlot(slots, s.file) == c;
  }

  lemma ReplacedAtEnd(slots: seq<Slot>, s: Slot)
    requires OneSlotEach(slots) && FindSlot(slots, s.file) < 0 && s.size <= FILE_SIZE
    ensures Replaced(slots, slots + [s], s.file, Bytes(s))
  {
    var now := slots + [s];
    assert now[..|slots|] == slots;
    forall f | 0 <= f ensures FindSlot(now, f) == if f == s.file then |slots| else FindSlot(slots, f) {}
  }

  lemma NewData(es: seq<Entry>, slots: seq<Slot>, now: seq<Slot>, i: nat, data: seq<byte>)
    requires FilesOk(es, slots) && i < |es| && es[i].kind == FILE && |data| <= FILE_SIZE
    requires Replaced(slots, now, i, data)
    ensures FilesOk(es[i := es[i].(size := |data|)], now)
  {
    var f := es[i := es[i].(size := |data|)];
    assert forall k :: 0 <= k < |es| ==> f[k].name == es[k].name && f[k].kind == es[k].kind;
    forall c | 0 <= c < |now| ensures SlotOk(f, now[c]) {
      if now[c].file != i {
        var b :| 0 <= b < |slots| && slots[b] == now[c];
        assert SlotOk(es, slots[b]);
      }
    }
  }

  lemma NewDataListing(es: seq<Entry>, slots: seq<Slot>, now: seq<Slot>, i: nat, data: seq<byte>)
    requires i < |es| && |data| <= FILE_SIZE && Replaced(slots, now, i, data)
    ensures var l := Listing(es, slots);
      Listing(es[i := es[i].(size := |data|)], now) == l[i := Record(l[i].path, l[i].node.(bytes := data))]
  {
    var l, m := Listing(es, slots), Listing(es[i := es[i].(size := |data|)], now);
    forall k | 0 <= k < |es| ensures m[k] == l[i := Record(l[i].path, l[i].node.(bytes := data))][k] {
      assert Content(now, k) == if k == i then data else Content(slots, k);
    }
  }

  // ---------------------------------------------------------------- looking up

  /** The search of the table is a lookup in the volume. */
  lemma FindIsLookup(es: seq<Entry>, slots: seq<Slot>, p: Path)
    requires Unique(es)
    ensures var files, i := FileMap(Listing(es, slots)), Find(es, p);
      && (p in files <==> i >= 0)
      && (i >= 0 ==> files[p] == Listing(es, slots)[i].node)
  {
    var l, i := Listing(es, slots), Find(es, p);
    ListingDistinct(es, slots);
    if i >= 0 {
      MapLookup(l, i);
    } else if p in FileMap(l) {
      var k := MapKey(l, p);
    }
  }

  lemma FindDirIsLookup(es: seq<Entry>, p: Path)
    requires Unique(es)
    ensures FindDir(es, p) >= 0 <==> Find(es, p) >= 0 && es[Find(es, p)].kind == DIRECTORY
  {
  }

  lemma FilesCounted(st: Store)
    requires Inv(st)
    ensures |View(st).files| == st.count
  {
    ListingDistinct(Entries(st), Live(st));
    MapSize(Listing(Entries(st), Live(st)));
  }

  // ---------------------------------------------------------------- the commands keep the invariant

  lemma JoinText(dir: Path, name: Path)
    requires DirOk(dir) && Text(dir) && Text(name)
    ensures Text(dir + name) && Named(dir + name) && (dir + name)[..3] == ROOT_DIR
  {
    assert (dir + name)[..3] == dir[..3];
    assert (dir + name)[0] == dir[..3][0];
  }

  /** A stored path reads back. */
  lemma NameStored(e: Entry, path: Path)
    requires Text(path) && Named(path) && |path| <= MAX_PATH
    ensures CStr(StrCopy(e.name, path)) == path && Named(StrCopy(e.name, path))
  {
    CStrOfCopy(e.name, path);
    assert path[..|path|] == path;
  }

  lemma AppendKeeps(st: Store, e: Entry)
    requires Inv(st) && st.count < LOADED_FILES && Find(Entries(st), CStr(e.name)) < 0 && e.size == 0
    requires Named(e.name) && |CStr(e.name)| <= MAX_PATH
    ensures Inv(Append(st, e))
    ensures View(Append(st, e)) == View(st).(files := View(st).files[CStr(e.name) := Node(e.kind, e.attr, [])])
  {
    var r := Append(st, e);
    assert Entries(r) == Entries(st) + [e];
    NewEntry(Entries(st), Live(st), e);
    NewEntryListing(Entries(st), Live(st), e);
    var l := Listing(Entries(r), Live(r));
    assert l[..|l| - 1] == Listing(Entries(st), Live(st));
  }

  lemma CreateKeeps(st: Store, name: Path, kind: byte, attr: byte)
    requires Inv(st) && Token(name) && (name != [] ==> RoomFor(View(st), CStr(st.dir) + name))
    ensures var r, v, p := Create(st, name, kind, attr), View(st), CStr(st.dir) + name;
      && Inv(r.0)
      && (r.1 <==> name != [] && p !in v.files)
      && View(r.0) == if r.1 then v.(files := v.files[p := Node(kind, attr, [])]) else v
  {
    FindIsLookup(Entries(st), Live(st), CStr(st.dir) + name);
    if name != [] && Find(Entries(st), CStr(st.dir) + name) < 0 {
      FilesCounted(st);
      JoinText(CStr(st.dir), name);
      NameStored(st.table[st.count], CStr(st.dir) + name);
      AppendKeeps(st, NewRow(st, CStr(st.dir) + name, kind, attr));
    }
  }

  lemma ModeKeeps(st: Store, mode: Path, name: Path)
    requires Inv(st)
    ensures var r, v := ChangeMode(st, mode, name), View(st);
      && Inv(r.0)
      && (r.1 <==> mode != [] && name != [] && name in v.files)
      && View(r.0) == if r.1 then v.(files := v.files[name := v.files[name].(attr := Mode(mode))]) else v
  {
    var i := Find(Entries(st), name);
    FindIsLookup(Entries(st), Live(st), name);
    if mode != [] && name != [] && i >= 0 {
      ModeKeepsAt(st, i, Mode(mode));
    }
  }

  lemma ModeKeepsAt(st: Store, i: nat, attr: byte)
    requires Inv(st) && i < st.count
    ensures var r, v, p := st.(table := st.table[i := st.table[i].(attr := attr)]), View(st), CStr(st.table[i].name);
      Inv(r) && p in v.files && View(r) == v.(files := v.files[p := v.files[p].(attr := attr)])
  {
    var es, slots, r := Entries(st), Live(st), st.(table := st.table[i := st.table[i].(attr := attr)]);
    assert Entries(r) == es[i := es[i].(attr := attr)];
    NewMode(es, slots, i, attr);
    ListingDistinct(es, slots);
    MapLookup(Listing(es, slots), i);
    MapUpdate(Listing(es, slots), i, Listing(es, slots)[i].node.(attr := attr));
  }

  lemma EraseKeeps(st: Store, key: byte)
    requires Inv(st)
    ensures var r, v := Erase(st, key), View(st);
      Inv(r.0) && r.1 == IsYes(key) && View(r.0) == if r.1 then v.(files := map[]) else v
  {
  }

  lemma CutDirIsParent(dir: seq<byte>)
    requires |dir| == DIR_SIZE && DirOk(CStr(dir))
    ensures CStr(CutDir(dir)) == Parent(CStr(dir)) && DirOk(Parent(CStr(dir)))
  {
    var n, t := StrLen(dir), CStr(dir);
    if n > 3 {
      var i := LastSlash(dir, n - 2);
      assert t[2] == t[..3][2] == BACKSLASH;
      assert i >= 2 && LastSlash(t, n - 2) == i;
      CStrIs(CutDir(dir), t[..i + 1]);
      assert t[..i + 1][..3] == t[..3];
    }
  }

  lemma EnterDirIsSlashed(dir: seq<byte>, path: Path)
    requires |dir| == DIR_SIZE && Text(path) && 0 < |path| < DIR_SIZE - 1
    ensures CStr(EnterDir(dir, path)) == Slashed(path)
  {
    var r, t := EnterDir(dir, path), Slashed(path);
    assert r[..|t|] == t;
    CStrIs(r, t);
  }

  lemma SlashedOk(path: Path)
    requires path != [] && |path| <= MAX_PATH && |path| >= 3 && path[..3] == ROOT_DIR
    ensures DirOk(Slashed(path))
  {
    assert Slashed(path)[..3] == path[..3];
  }

  lemma NewDirKeeps(st: Store, dir: seq<byte>)
    requires Inv(st) && |dir| == DIR_SIZE && DirOk(CStr(dir))
    ensures Inv(st.(dir := dir)) && View(st.(dir := dir)) == View(st).(dir := CStr(dir))
  {
  }

  lemma EnteredDir(st: Store, p: Path)
    requires NamesOk(Entries(st)) && FindDir(Entries(st), p) >= 0 && Text(p) && |p| >= 3 && p[..3] == ROOT_DIR
    ensures |p| <= MAX_PATH && CStr(EnterDir(st.dir, p)) == Slashed(p) && DirOk(Slashed(p))
  {
    assert |CStr(Entries(st)[FindDir(Entries(st), p)].name)| <= MAX_PATH;
    EnterDirIsSlashed(st.dir, p);
    SlashedOk(p);
  }

  lemma DirFound(st: Store, p: Path)
    requires Inv(st)
    ensures FindDir(Entries(st), p) >= 0 <==> IsDirectory(View(st), p)
  {
    FindIsLookup(Entries(st), Live(st), p);
    FindDirIsLookup(Entries(st), p);
  }

  lemma DirKeeps(st: Store, name: Path)
    requires Inv(st) && Token(name)
    ensures var r, v := ChangeDir(st, name), View(st);
      && Inv(r.0)
      && (r.1 <==> name == DOTS || (name != [] && IsDirectory(v, v.dir + name)))
      && View(r.0) == if r.1 then v.(dir := if name == DOTS then Parent(v.dir) else Slashed(v.dir + name)) else v
  {
    if name == DOTS {
      CutDirIsParent(st.dir);
      NewDirKeeps(st, CutDir(st.dir));
    } else if name != [] {
      var p := CStr(st.dir) + name;
      DirFound(st, p);
      if FindDir(Entries(st), p) >= 0 {
        JoinText(CStr(st.dir), name);
        EnteredDir(st, p);
        NewDirKeeps(st, EnterDir(st.dir, p));
      }
    }
  }

  /** The slots after contents for file `i` were put in. */
  function PutSlots(st: Store, i: nat, data: seq<byte>): seq<Slot>
    requires i < MAX_FILES
  {
    Live(PutData(st, i, data).0)
  }

  lemma SlotsReplaced(st: Store, i: nat, data: seq<byte>)
    requires OneSlotEach(Live(st)) && i < MAX_FILES && |data| <= FILE_SIZE
    requires FindSlot(Live(st), i) < 0 ==> st.slotCount < MAX_SLOTS
    ensures Replaced(Live(st), PutSlots(st, i, data), i, data) && PutData(st, i, data).1 == 0
  {
    var c := FindSlot(Live(st), i);
    var at := if c >= 0 then c else st.slotCount;
    var slot: Slot := SetData(st.slots, at, i, data)[at];
    assert Bytes(slot) == data;
    if c >= 0 {
      assert PutSlots(st, i, data) == Live(st)[c := slot];
      ReplacedInPlace(Live(st), c, slot);
    } else {
      assert PutSlots(st, i, data) == Live(st) + [slot];
      ReplacedAtEnd(Live(st), slot);
    }
  }

  lemma DataKeeps(st: Store, i: nat, data: seq<byte>)
    requires Inv(st) && i < st.count && st.table[i].kind == FILE && |data| <= FILE_SIZE
    ensures var r := PutData(Resized(st, i, |data|), i, data);
      r.1 == 0 && Inv(r.0) && Replaced(Live(st), Live(r.0), i, data)
  {
    var s := Resized(st, i, |data|);
    var r := PutData(s, i, data).0;
    if FindSlot(Live(st), i) < 0 {
      RoomForSlot(Entries(st), Live(st), i);
    }
    assert Live(s) == Live(st);
    SlotsReplaced(s, i, data);
    assert Entries(r) == Entries(st)[i := st.table[i].(size := |data|)];
    NewData(Entries(st), Live(st), Live(r), i, data);
  }

  lemma DataView(st: Store, i: nat, data: seq<byte>)
    requires Inv(st) && i < st.count && st.table[i].kind == FILE && |data| <= FILE_SIZE
    ensures var r, v, p := PutData(Resized(st, i, |data|), i, data).0, View(st), CStr(st.table[i].name);
      && p in v.files
      && View(r) == v.(files := v.files[p := Node(FILE, v.files[p].attr, data)])
  {
    var l := Listing(Entries(st), Live(st));
    DataKeeps(st, i, data);
    var r := PutData(Resized(st, i, |data|), i, data).0;
    assert Entries(r) == Entries(st)[i := st.table[i].(size := |data|)];
    NewDataListing(Entries(st), Live(st), Live(r), i, data);
    ListingDistinct(Entries(st), Live(st));
    MapUpdate(l, i, l[i].node.(bytes := data));
    MapLookup(l, i);
  }

  lemma ResolvedText(st: Store, name: Path)
    requires Inv(st) && Token(name) && Resolve(CStr(st.dir), name) != []
    ensures var p := Resolve(CStr(st.dir), name); Text(p) && Named(p)
  {
    if IsRelative(name) {
      JoinText(CStr(st.dir), name);
    }
  }

  lemma EnteredKeeps(st: Store, p: Path)
    requires Inv(st) && Text(p) && Named(p) && RoomFor(View(st), p)
    ensures st.count < MAX_FILES || Find(Entries(st), p) >= 0
    ensures var (a, i), v := Entered(st, p), View(st);
      && Inv(a) && CStr(a.table[i].name) == p
      && View(a) == if p in v.files then v else v.(files := v.files[p := Node(FILE, 0, [])])
  {
    FindIsLookup(Entries(st), Live(st), p);
    FilesCounted(st);
    if Find(Entries(st), p) < 0 {
      NameStored(st.table[st.count], p);
      AppendKeeps(st, NewRow(st, p, FILE, 0).(parent := NO_PARENT));
    }
  }

  lemma EnteredFile(st: Store, p: Path)
    requires Inv(st) && RoomFor(View(st), p) && (p in View(st).files ==> View(st).files[p].kind == FILE)
    ensures st.count < MAX_FILES || Find(Entries(st), p) >= 0
    ensures var (a, i) := Entered(st, p); a.table[i].kind == FILE
  {
    FindIsLookup(Entries(st), Live(st), p);
    FilesCounted(st);
  }

  lemma SaveContentIs(st: Store, name: Path, data: seq<byte>)
    requires Token(name) && |data| <= FILE_SIZE
    requires st.count < MAX_FILES || Find(Entries(st), Resolve(CStr(st.dir), name)) >= 0
    ensures var (a, i) := Entered(st, Resolve(CStr(st.dir), name));
      SaveContent(st, name, data) == PutData(Resized(a, i, |data|), i, data)
  {
    assert name[..|name|] == name;
  }

  lemma TwiceIsOnce(files: map<Path, Node>, p: Path, node: Node, data: seq<byte>)
    ensures files[p := node][p := Node(FILE, node.attr, data)] == files[p := Node(FILE, node.attr, data)]
  {
  }

  lemma PutKeepsAt(st: Store, p: Path, data: seq<byte>)
    requires Inv(st) && Text(p) && Named(p) && RoomFor(View(st), p) && |data| <= FILE_SIZE
    requires p in View(st).files ==> View(st).files[p].kind == FILE
    ensures st.count < MAX_FILES || Find(Entries(st), p) >= 0
    ensures var (a, i), v := Entered(st, p), View(st);
      var r := PutData(Resized(a, i, |data|), i, data);
      && r.1 == 0 && Inv(r.0)
      && View(r.0) == v.(files := v.files[p := Node(FILE, if p in v.files then v.files[p].attr else 0, data)])
  {
    EnteredKeeps(st, p);
    EnteredFile(st, p);
    var (a, i) := Entered(st, p);
    DataKeeps(a, i, data);
    DataView(a, i, data);
    TwiceIsOnce(View(st).files, p, Node(FILE, 0, []), data);
  }

  lemma PutKeeps(st: Store, name: Path, data: seq<byte>)
    requires Inv(st) && InLimits(View(st), Put(name, data))
    ensures var r, v := SaveContent(st, name, data), View(st);
      var p := if |name| >= 2 && name[1] == 0x3A then name else v.dir + name;
      && r.1 == 0 && Inv(r.0)
      && View(r.0) == v.(files := v.files[p := Node(FILE, if p in v.files then v.files[p].attr else 0, data)])
  {
    var p := Resolve(CStr(st.dir), name);
    ResolvedText(st, name);
    PutKeepsAt(st, p, data);
    SaveContentIs(st, name, data);
  }

  // ---------------------------------------------------------------- reboot

  lemma SizesAgree(es: seq<Entry>, slots: seq<Slot>, i: nat)
    requires SlotsOk(es, slots) && Backed(es, slots) && i < |es|
    ensures |Content(slots, i)| == TableSize(es[i]) && es[i].size <= FILE_SIZE
  {
    var c := FindSlot(slots, i);
    if c >= 0 {
      assert SlotOk(es, slots[c]);
    }
  }

  lemma InvFits(st: Store)
    requires SlotsOk(Entries(st), Live(st))
    ensures SlotsFit(Live(st))
  {
    forall c | 0 <= c < st.slotCount ensures Live(st)[c].size <= FILE_SIZE {
      assert SlotOk(Entries(st), Live(st)[c]);
    }
  }

  /** Loaded slots are in the order of their files. */
  lemma {:induction false} LoadedInOrder(d: Disk, table: seq<Entry>)
    requires |table| <= LOADED_FILES
    ensures var l := LoadSlots(d, table);
      && OneSlotEach(l)
      && forall c :: 0 <= c < |l| ==>
        l[c].file < |table| && HasContent(table[l[c].file]) && l[c].size == table[l[c].file].size
  {
    if table != [] {
      var n := |table| - 1;
      LoadedInOrder(d, table[..n]);
    }
  }

  lemma ReloadFiles(st: Store, r: Store, d: Disk)
    requires FilesOk(Entries(st), Live(st)) && Entries(r) == Entries(st) && Live(r) == LoadSlots(d, Entries(st))
    ensures FilesOk(Entries(r), Live(r))
  {
    var es, l := Entries(st), LoadSlots(d, Entries(st));
    LoadedInOrder(d, es);
    forall i | 0 <= i < |es|
      ensures es[i].size <= FILE_SIZE && (es[i].size > 0 ==> es[i].kind == FILE && FindSlot(l, i) >= 0)
    {
      SizesAgree(es, Live(st), i);
      SlotsLoaded(d, es, i);
    }
    assert SlotsOk(es, l);
  }

  lemma UsersAgain(r: Store, st: Store)
    requires SameUsers(r, st) && UsersSurvive(st)
    ensures UsersSurvive(r)
  {
    forall i | 0 <= i < r.userCount ensures Named(r.users[i]) {
      assert r.users[..r.userCount][i] == st.users[..st.userCount][i];
    }
  }

  lemma SameListing(st: Store, r: Store)
    requires Entries(r) == Entries(st) && forall i :: 0 <= i < st.count ==> Content(Live(r), i) == Content(Live(st), i)
    ensures Listing(Entries(r), Live(r)) == Listing(Entries(st), Live(st))
  {
  }

  /** A store that was saved and one booted from the disk stand for the same volume. */
  lemma ReloadKeeps(st: Store, d: Disk)
    requires Inv(st)
    ensures SlotsFit(Live(st)) && Inv(Boot(Save(st, d))) && View(Boot(Save(st, d))) == View(st)
  {
    InvFits(st);
    ReloadedStore(st, d);
    var r := Load(Fresh(), Save(st, d));
    ReloadFiles(st, r, Save(st, d));
    SameListing(st, r);
    UsersAgain(r, st);
    assert Boot(Save(st, d)) == r;
  }

  lemma ReloadedStore(st: Store, d: Disk)
    requires Inv(st) && SlotsFit(Live(st))
    ensures var r := Load(Fresh(), Save(st, d));
      && CStr(r.dir) == CStr(st.dir) && SameUsers(r, st)
      && Entries(r) == Entries(st) && Live(r) == LoadSlots(Save(st, d), Entries(st))
      && forall i :: 0 <= i < st.count ==> Content(Live(r), i) == Content(Live(st), i)
  {
    var t := CStr(st.dir);
    assert t[0] == t[..3][0] && t[1] == t[..3][1];
    forall i | 0 <= i < st.count
      ensures |Content(Live(st), i)| == TableSize(st.table[i]) && st.table[i].size <= FILE_SIZE
    {
      SizesAgree(Entries(st), Live(st), i);
    }
    assert forall i :: 0 <= i < st.count ==> Entries(st)[i] == st.table[i];
    SaveLoadRoundTrip(st, d);
    var r := Load(Fresh(), Save(st, d));
    assert Entries(r) == Entries(st);
  }

  // ---------------------------------------------------------------- whole runs

  /** One operation on memory and disk. */
  function Exec(s: System, op: Op): System
    requires Inv(s.st) && InLimits(View(s.st), op)
  {
    match op
    case Put(name, data) => s.(st := SaveContent(s.st, name, data).0)
    case Reboot => s.(st := Boot(s.disk))
    case _ => ChangeFits(s.st, op); Saving(Change(s.st, op), s.disk)
  }

  lemma ChangeFits(st: Store, op: Op)
    requires Inv(st) && InLimits(View(st), op) && !op.Put? && !op.Reboot?
    ensures SlotsFit(Live(Change(st, op).0))
  {
    ChangeKeeps(st, op);
    InvFits(Change(st, op).0);
  }

  lemma ChangeKeeps(st: Store, op: Op)
    requires Inv(st) && InLimits(View(st), op) && !op.Put? && !op.Reboot?
    ensures Inv(Change(st, op).0)
    ensures var (r, saved) := Change(st, op);
      forall disk :: Effect(Volumes(View(st), disk), op) == Volumes(View(r), if saved then View(r) else disk)
  {
    match op
    case Mkdir(name) => CreateKeeps(st, name, DIRECTORY, DIR_ATTR);
    case Touch(name) => CreateKeeps(st, name, FILE, FILE_ATTR);
    case Chmod(mode, name) => ModeKeeps(st, mode, name);
    case Cd(name) => DirKeeps(st, name);
    case Format(key) => EraseKeeps(st, key);
    case Sync =>
  }

  /** What memory and disk stand for. */
  function Meaning(s: System): Volumes {
    Volumes(View(s.st), View(Boot(s.disk)))
  }

  predicate SystemOk(s: System) {
    Inv(s.st) && Inv(Boot(s.disk))
  }

  lemma ExecKeeps(s: System, op: Op)
    requires SystemOk(s) && InLimits(View(s.st), op)
    ensures SystemOk(Exec(s, op)) && Meaning(Exec(s, op)) == Effect(Meaning(s), op)
  {
    if op.Put? {
      PutKeeps(s.st, op.name, op.data);
    } else if !op.Reboot? {
      ChangeKeeps(s.st, op);
      ChangeFits(s.st, op);
      var r := Change(s.st, op);
      if r.1 {
        ReloadKeeps(r.0, s.disk);
      }
    }
  }

  const BLANK: Disk := map[]

  function PowerOn(): System { System(Boot(BLANK), BLANK) }

  function Effects(vs: Volumes, ops: seq<Op>): Volumes {
    if ops == [] then vs else Effect(Effects(vs, ops[..|ops| - 1]), ops[|ops| - 1])
  }

  /** Every operation meets the limits when its turn comes. */
  ghost predicate AllInLimits(vs: Volumes, ops: seq<Op>) {
    forall n :: 0 <= n < |ops| ==> InLimits(Effects(vs, ops[..n]).live, ops[n])
  }

  function ExecAll(s: System, ops: seq<Op>): (r: System)
    requires SystemOk(s) && AllInLimits(Meaning(s), ops)
    ensures SystemOk(r) && Meaning(r) == Effects(Meaning(s), ops)
  {
    if ops == [] then s else
    var n := |ops| - 1;
    PrefixInLimits(Meaning(s), ops, n);
    var before := ExecAll(s, ops[..n]);
    ExecKeeps(before, ops[n]);
    Exec(before, ops[n])
  }

  lemma PrefixInLimits(vs: Volumes, ops: seq<Op>, n: nat)
    requires AllInLimits(vs, ops) && n <= |ops|
    ensures AllInLimits(vs, ops[..n])
  {
    forall m | 0 <= m < n ensures InLimits(Effects(vs, ops[..n][..m]).live, ops[..n][m]) {
      assert ops[..n][..m] == ops[..m];
    }
  }

  lemma BlankLoad()
    ensures Load(Fresh(), BLANK) == Fresh()
  {
    NoUsers(LOADED_USERS);
    assert LoadTable(Fresh().table, BLANK, 0) == Fresh().table;
    assert LoadSlots(BLANK, []) == [];
  }

  /** A blank disk boots into an empty root directory with one user. */
  lemma BlankBoot()
    ensures SystemOk(PowerOn())
    ensures View(PowerOn().st) == Volume(ROOT_DIR, [RootUser(Zeros(ENTRY_SIZE))], map[])
  {
    BlankLoad();
    CStrIs(Fresh().dir, ROOT_DIR);
    var st := Boot(BLANK);
    assert st == Fresh().(users := Fresh().users[0 := RootUser(Zeros(ENTRY_SIZE))], userCount := 1);
    assert Listing(Entries(st), Live(st)) == [];
    assert st.users[..1] == [RootUser(Zeros(ENTRY_SIZE))];
  }

  lemma {:induction false} NoUsers(k: nat)
    ensures LoadUsers(BLANK, k) == []
  {
    if k > 0 {
      NoUsers(k - 1);
    }
  }

  /** From a blank disk, over every run of commands, contents saved and reboots within the limits: memory
      stands for the volume that the operations make of an empty one, paths are unique, no file has two
      slots, sizes agree, and a reboot brings back the volume as it was last saved. */
  lemma PersistenceOverRuns(ops: seq<Op>)
    requires var v := Volume(ROOT_DIR, [RootUser(Zeros(ENTRY_SIZE))], map[]); AllInLimits(Commit(v), ops)
    ensures SystemOk(PowerOn()) && AllInLimits(Meaning(PowerOn()), ops)
    ensures var r, v := ExecAll(PowerOn(), ops), Volume(ROOT_DIR, [RootUser(Zeros(ENTRY_SIZE))], map[]);
      && Inv(r.st) && View(r.st) == Effects(Commit(v), ops).live
      && View(Boot(r.disk)) == Effects(Commit(v), ops).disk
  {
    BlankBoot();
  }

  // ---------------------------------------------------------------- the limits are needed

  lemma Truncated(st: Store, path: Path, kind: byte, attr: byte)
    requires st.count < MAX_FILES && Text(path) && |path| > MAX_PATH
    ensures CStr(NewRow(st, path, kind, attr).name) == path[..MAX_PATH]
  {
    CStrOfCopy(st.table[st.count].name, path);
  }

  lemma FindNot(es: seq<Entry>, path: Path)
    requires forall i :: 0 <= i < |es| ==> |CStr(es[i].name)| <= MAX_PATH
    requires |path| > MAX_PATH
    ensures Find(es, path) < 0
  {
  }

  /** Creating the same path twice leaves paths unique exactly when the path fits: a longer one is cut
      when stored and never found again. */
  lemma UniqueIffPathFits(st: Store, name: Path, kind: byte, attr: byte)
    requires Inv(st) && Token(name) && name != [] && st.count < LOADED_FILES
    ensures var once := Create(st, name, kind, attr).0;
      Unique(Entries(Create(once, name, kind, attr).0)) <==> |CStr(st.dir) + name| <= MAX_PATH
  {
    if |CStr(st.dir) + name| <= MAX_PATH {
      FitsOnce(st, name, kind, attr);
    } else {
      LongTwice(st, name, kind, attr);
    }
  }

  lemma LongTwice(st: Store, name: Path, kind: byte, attr: byte)
    requires Inv(st) && Token(name) && name != [] && st.count < LOADED_FILES && |CStr(st.dir) + name| > MAX_PATH
    ensures var once := Create(st, name, kind, attr).0; !Unique(Entries(Create(once, name, kind, attr).0))
  {
    var path := CStr(st.dir) + name;
    JoinText(CStr(st.dir), name);
    LongOnce(st, name, path, kind, attr);
    var once := Create(st, name, kind, attr).0;
    LongOnce(once, name, path, kind, attr);
    var es := Entries(Create(once, name, kind, attr).0);
    assert es[st.count] == Entries(once)[st.count];
  }

  lemma LongOnce(st: Store, name: Path, path: Path, kind: byte, attr: byte)
    requires st.count < MAX_FILES && name != [] && Text(path) && path == CStr(st.dir) + name && |path| > MAX_PATH
    requires forall i :: 0 <= i < st.count ==> |CStr(Entries(st)[i].name)| <= MAX_PATH
    ensures var r := Create(st, name, kind, attr).0;
      && r.dir == st.dir && r.count == st.count + 1 && Entries(r)[..st.count] == Entries(st)
      && CStr(Entries(r)[st.count].name) == path[..MAX_PATH]
      && forall i :: 0 <= i < r.count ==> |CStr(Entries(r)[i].name)| <= MAX_PATH
  {
    FindNot(Entries(st), path);
    Truncated(st, path, kind, attr);
    var r, e := Create(st, name, kind, attr).0, NewRow(st, path, kind, attr);
    assert r == Append(st, e) && Entries(r) == Entries(st) + [e];
  }

  lemma FitsOnce(st: Store, name: Path, kind: byte, attr: byte)
    requires Inv(st) && Token(name) && name != [] && st.count < LOADED_FILES && |CStr(st.dir) + name| <= MAX_PATH
    ensures var once := Create(st, name, kind, attr).0; Unique(Entries(Create(once, name, kind, attr).0))
  {
    var path, once := CStr(st.dir) + name, Create(st, name, kind, attr).0;
    FilesCounted(st);
    CreateKeeps(st, name, kind, attr);
    FindIsLookup(Entries(st), Live(st), path);
    FindIsLookup(Entries(once), Live(once), path);
    assert path in View(once).files;
  }

  lemma ReplacedFits(st: Store, now: seq<Slot>, i: nat, data: seq<byte>)
    requires SlotsOk(Entries(st), Live(st)) && |data| <= FILE_SIZE && Replaced(Live(st), now, i, data)
    ensures SlotsFit(now)
  {
    InvFits(st);
  }

  /** Contents put under an existing name come back after a reboot exactly when the name is a file's. */
  lemma ContentsSurviveIffFile(st: Store, i: nat, data: seq<byte>, d: Disk)
    requires Inv(st) && i < st.count && 0 < |data| <= FILE_SIZE
    ensures var r := PutData(Resized(st, i, |data|), i, data).0;
      && Content(Live(r), i) == data && SlotsFit(Live(r))
      && (Content(Live(Load(Fresh(), Save(r, d))), i) == data <==> st.table[i].kind == FILE)
  {
    var s := Resized(st, i, |data|);
    var r := PutData(s, i, data).0;
    assert Live(s) == Live(st);
    if FindSlot(Live(st), i) < 0 {
      RoomForSlot(Entries(st), Live(st), i);
    }
    SlotsReplaced(s, i, data);
    ReplacedFits(st, Live(r), i, data);
    assert r.count == st.count && r.table == s.table;
    forall k | 0 <= k < r.count ensures Named(r.table[k].name) {
      assert Entries(st)[k] == st.table[k];
    }
    ContentRestoredIff(r, d, i);
  }

  lemma DataCut(st: Store, i: nat, data: seq<byte>)
    requires i < MAX_FILES
    ensures PutData(st, i, data) == PutData(st, i, data[..Min(|data|, FILE_SIZE)])
  {
    var cut := data[..Min(|data|, FILE_SIZE)];
    assert cut[..|cut|] == cut;
  }

  lemma PutFits(st: Store, i: nat, data: seq<byte>)
    requires Inv(st) && i < st.count && |data| < TWO_32
    ensures SlotsFit(Live(PutData(Resized(st, i, |data|), i, data).0))
  {
    var s, cut := Resized(st, i, |data|), data[..Min(|data|, FILE_SIZE)];
    DataCut(s, i, data);
    assert Live(s) == Live(st);
    if FindSlot(Live(st), i) < 0 {
      RoomForSlot(Entries(st), Live(st), i);
    }
    SlotsReplaced(s, i, cut);
    ReplacedFits(st, PutSlots(s, i, cut), i, cut);
  }

  lemma LoadedSizes(d: Disk, es: seq<Entry>, i: nat)
    requires |es| <= LOADED_FILES && i < |es| && HasContent(es[i])
    requires forall k :: 0 <= k < |es| && k != i ==> es[k].size <= FILE_SIZE
    ensures SlotsFit(LoadSlots(d, es)) <==> es[i].size <= FILE_SIZE
  {
    LoadedInOrder(d, es);
    SlotsLoaded(d, es, i);
    var l := LoadSlots(d, es);
    var c := FindSlot(l, i);
    assert l[c].size == es[i].size;
  }

  /** A file put in with more than 4096 bytes comes back with a slot that claims more than it holds. */
  lemma SlotsFitIffSmall(st: Store, i: nat, data: seq<byte>, d: Disk)
    requires Inv(st) && i < st.count && st.table[i].kind == FILE && 0 < |data| < TWO_32
    ensures var r := PutData(Resized(st, i, |data|), i, data).0;
      && SlotsFit(Live(r))
      && (SlotsFit(Live(Load(Fresh(), Save(r, d)))) <==> |data| <= FILE_SIZE)
  {
    PutFits(st, i, data);
    var r := PutData(Resized(st, i, |data|), i, data).0;
    assert Entries(r) == Entries(st)[i := st.table[i].(size := |data|)];
    forall k | 0 <= k < st.count ensures Named(r.table[k].name) && (k != i ==> Entries(r)[k].size <= FILE_SIZE) {
      assert Entries(r)[k].name == Entries(st)[k].name;
      SizesAgree(Entries(st), Live(st), k);
    }
    LoadedSizes(Save(r, d), Entries(r), i);
    LoadedLive(r, d);
  }
}
