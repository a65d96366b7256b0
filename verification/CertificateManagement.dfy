/** ModifyCertificatesHandler: brings one certificate store of the device to the desired state.  The storage account,
    the hash and the device's answers are arbitrary functions; what the store does with a command it accepts is
    modelled. */
module CertificateManagement {
  import opened ByteStrings
  import opened JsonValue
  import opened JsonNumbers
  import opened SplitString

  const SOLIDUS: Byte := 0x2f
  const REVERSE_SOLIDUS: Byte := 0x5c

  /** "installed", "uninstalled", "state", "fileName", "Refreshing". */
  const INSTALLED: Bytes := [0x69, 0x6e, 0x73, 0x74, 0x61, 0x6c, 0x6c, 0x65, 0x64]
  const UNINSTALLED: Bytes := [0x75, 0x6e, 0x69, 0x6e, 0x73, 0x74, 0x61, 0x6c, 0x6c, 0x65, 0x64]
  const STATE: Bytes := [0x73, 0x74, 0x61, 0x74, 0x65]
  const FILE_NAME: Bytes := [0x66, 0x69, 0x6c, 0x65, 0x4e, 0x61, 0x6d, 0x65]
  const REFRESHING: Bytes := [0x52, 0x65, 0x66, 0x72, 0x65, 0x73, 0x68, 0x69, 0x6e, 0x67]

  /** "uninstallCertificate" and "installCertificate", the operations whose errors are reported under one name. */
  const UNINSTALL_CERTIFICATE: Bytes := [0x75, 0x6e] + INSTALL_CERTIFICATE
  const INSTALL_CERTIFICATE: Bytes :=
    [0x69, 0x6e, 0x73, 0x74, 0x61, 0x6c, 0x6c, 0x43, 0x65, 0x72, 0x74, 0x69, 0x66, 0x69, 0x63, 0x61, 0x74, 0x65]

  // ---- names compared without regard to case

  function LowerChar(c: Byte): Byte {
    if 0x41 <= c <= 0x5a then c + 0x20 else c
  }

  function Lower(s: Bytes): (r: Bytes)
    ensures |r| == |s| && forall i :: 0 <= i < |s| ==> r[i] == LowerChar(s[i])
  {
    if s == [] then [] else [LowerChar(s[0])] + Lower(s[1..])
  }

  /** What c_str() shows of a string. */
  function CString(s: Bytes): Bytes {
    if s == [] || s[0] == 0 then [] else [s[0]] + CString(s[1..])
  }

  /** _stricmp(a.c_str(), b.c_str()) == 0. */
  predicate SameName(a: Bytes, b: Bytes) {
    Lower(CString(a)) == Lower(CString(b))
  }

  // ---- the device

  datatype Certificate = Certificate(name: Bytes, data: Bytes)

  type Store = seq<Certificate>

  datatype CertificateFile = CertificateFile(fullFileName: Bytes, thumbPrint: Bytes)

  /** What the world answers: whether the store can be listed, what a blob holds, to which file a name leads, the SHA-1
      name of a certificate, and whether the device accepts a command.  Different names may lead to one file. */
  datatype World = World(
    lists: bool,
    download: (Bytes, Bytes) -> Option<Bytes>,
    place: Bytes -> Bytes,
    thumbprint: Bytes -> Option<Bytes>,
    deletes: Bytes -> bool,
    adds: (Bytes, Bytes) -> bool)
  {
    function At(f: CertificateFile): Bytes {
      place(f.fullFileName)
    }
  }

  predicate Has(store: Store, name: Bytes) {
    exists i :: 0 <= i < |store| && SameName(store[i].name, name)
  }

  function Names(store: Store): (n: seq<Bytes>)
    ensures |n| == |store| && forall i :: 0 <= i < |store| ==> n[i] == store[i].name
  {
    seq(|store|, i requires 0 <= i < |store| => store[i].name)
  }

  /** Node names are not empty and hold no slash, so that a list of them can be sent as one text. */
  predicate IsNodeName(name: Bytes) {
    name != [] && SOLIDUS !in name
  }

  predicate IsStore(store: Store) {
    forall i :: 0 <= i < |store| ==> IsNodeName(store[i].name)
  }

  /** RunGetString on the store's path. */
  function Listing(store: Store): Bytes {
    Join(Names(store), SOLIDUS)
  }

  /** RunDelete of a certificate's node. */
  function Deleted(store: Store, name: Bytes): Store {
    if store == [] then []
    else (if SameName(store[0].name, name) then [] else [store[0]]) + Deleted(store[1..], name)
  }

  /** RunAddDataBase64: the certificate is added, or replaces the one of that name. */
  function Added(store: Store, name: Bytes, data: Bytes): Store {
    Deleted(store, name) + [Certificate(name, data)]
  }

  lemma {:induction false} DeletedHas(store: Store, name: Bytes, x: Bytes)
    ensures Has(Deleted(store, name), x) <==> Has(store, x) && !SameName(name, x)
    ensures forall c :: c in Deleted(store, name) ==> c in store
  {
    if store != [] {
      DeletedHas(store[1..], name, x);
      var head := if SameName(store[0].name, name) then [] else [store[0]];
      HasInParts(head, Deleted(store[1..], name), x);
      HasInParts([store[0]], store[1..], x);
      assert store == [store[0]] + store[1..];
    }
  }

  lemma HasInParts(a: Store, b: Store, x: Bytes)
    ensures Has(a + b, x) <==> Has(a, x) || Has(b, x)
  {
    if Has(a, x) {
      var i :| 0 <= i < |a| && SameName(a[i].name, x);
      assert SameName((a + b)[i].name, x);
    }
    if Has(b, x) {
      var i :| 0 <= i < |b| && SameName(b[i].name, x);
      assert SameName((a + b)[|a| + i].name, x);
    }
  }

  lemma AddedHas(store: Store, name: Bytes, data: Bytes, x: Bytes)
    ensures Has(Added(store, name, data), x) <==> Has(store, x) || SameName(name, x)
  {
    DeletedHas(store, name, x);
    HasInParts(Deleted(store, name), [Certificate(name, data)], x);
    var one := [Certificate(name, data)];
    assert SameName(one[0].name, x) <==> SameName(name, x);
  }

  // ---- the desired configuration

  datatype Property<+T> = Absent | Present(value: T) | Invalid

  /** Operation::TryGetJsonValue; Invalid stands for its exception. */
  function TryGetJsonValue(o: Value, name: Bytes): Property<Value> {
    match o
    case Null => Absent
    case String(text) => if text == REFRESHING then Absent else Invalid
    case Object(m) => var v := Lookup(m, Name(name)); if v.Null? then Absent else Present(v)
    case _ => Invalid
  }

  function TryGetStringJsonValue(o: Value, name: Bytes): Property<Bytes> {
    match TryGetJsonValue(o, name)
    case Absent => Absent
    case Present(String(text)) => Present(text)
    case _ => Invalid
  }

  datatype Item = Item(thumbprint: Bytes, wanted: Value)

  function KeyText(k: CZString): Bytes {
    match k
    case Index(i) => DecimalInt(i)
    case Name(b) => b
  }

  /** What iterating over a section visits. */
  function Items(section: Value): (items: seq<Item>)
    ensures section.Array? || section.Object? ==> |items| == |section.entries|
  {
    if section.Array? || section.Object? then
      var m := section.entries;
      seq(|m|, i requires 0 <= i < |m| => Item(KeyText(m[i].key), m[i].value))
    else []
  }

  function SectionOf(desired: Value, group: Bytes): Property<seq<Item>> {
    match TryGetJsonValue(desired, group)
    case Absent => Present([])
    case Present(section) => Present(Items(section))
    case Invalid => Invalid
  }

  // ---- what is to be done about one certificate

  datatype Decision = Keep | Uninstall | Fetch(connection: Bytes, containerAndBlob: Bytes) | NothingToDo | Fail

  function Decide(connection: Option<Bytes>, isCurrentlyInstalled: bool, wanted: Value): Decision {
    match TryGetStringJsonValue(wanted, STATE)
    case Present(state) =>
      if state == UNINSTALLED then if isCurrentlyInstalled then Uninstall else NothingToDo
      else if state != INSTALLED then Fail
      else if isCurrentlyInstalled then Keep
      else if connection.None? then Fail
      else
        (match TryGetStringJsonValue(wanted, FILE_NAME)
         case Present(f) => if f == [] then Fail else Fetch(connection.value, f)
         case _ => Fail)
    case _ => Fail
  }

  /** The contents of the temporary files. */
  type Files = map<Bytes, Bytes>

  /** The name of the temporary file: the last part of the blob's name, whatever the container. */
  function FileName(containerAndBlob: Bytes): Option<Bytes> {
    var parts := Split(containerAndBlob, REVERSE_SOLIDUS);
    if |parts| < 2 then None else Some(parts[|parts| - 1])
  }

  /** DownloadCertificateFromBlob and the constructor of CertificateFile.  None stands for an exception, which may leave
      the file behind. */
  function Fetched(world: World, d: Decision, files: Files): (r: (Files, Option<CertificateFile>))
    requires d.Fetch?
    ensures r.1.Some? ==>
      var f := r.1.value; world.At(f) in r.0 && world.thumbprint(r.0[world.At(f)]) == Some(f.thumbPrint)
  {
    match (FileName(d.containerAndBlob), world.download(d.connection, d.containerAndBlob))
    case (Some(file), Some(data)) =>
      var files' := files[world.place(file) := data];
      (match world.thumbprint(data)
       case None => (files', None)
       case Some(t) => (files', Some(CertificateFile(file, t))))
    case _ => (files, None)
  }

  /** Does a name the device listed match, without regard to case? */
  predicate IsCurrent(hashes: seq<Bytes>, thumbprint: Bytes) {
    exists i :: 0 <= i < |hashes| && SameName(hashes[i], thumbprint)
  }

  lemma CurrentMeansHas(store: Store, thumbprint: Bytes)
    requires IsStore(store)
    ensures IsCurrent(Split(Listing(store), SOLIDUS), thumbprint) <==> Has(store, thumbprint)
  {
    var names := Names(store);
    forall t | t in names
      ensures SOLIDUS !in t
    {
      var i :| 0 <= i < |names| && names[i] == t;
    }
    SplitInvertsJoinExactly(names, SOLIDUS);
    if store != [] { assert IsNodeName(store[|store| - 1].name); }
    assert Split(Listing(store), SOLIDUS) == names;
    if IsCurrent(names, thumbprint) {
      var i :| 0 <= i < |names| && SameName(names[i], thumbprint);
      assert SameName(store[i].name, thumbprint);
    }
    if Has(store, thumbprint) {
      var i :| 0 <= i < |store| && SameName(store[i].name, thumbprint);
      assert SameName(names[i], thumbprint);
    }
  }

  // ---- the two work lists

  /** The work lists, the certificates found as wanted, the failed operations, and the temporary files. */
  datatype Work = Work(
    toInstall: seq<CertificateFile>,
    toUninstall: seq<Bytes>,
    kept: seq<Bytes>,
    failed: set<Bytes>,
    files: Files)

  function Consider(world: World, connection: Option<Bytes>, hashes: seq<Bytes>, w: Work, item: Item): Work {
    var d := Decide(connection, IsCurrent(hashes, item.thumbprint), item.wanted);
    match d
    case Keep => w.(kept := w.kept + [item.thumbprint])
    case Uninstall => w.(toUninstall := w.toUninstall + [item.thumbprint])
    case NothingToDo => w
    case Fail => w.(failed := w.failed + {item.thumbprint})
    case Fetch(_, _) =>
      var (files, f) := Fetched(world, d, w.files);
      if f.None? then w.(files := files, failed := w.failed + {item.thumbprint})
      else w.(files := files, toInstall := w.toInstall + [f.value])
  }

  function ConsiderAll(world: World, connection: Option<Bytes>, hashes: seq<Bytes>, w: Work, items: seq<Item>): Work
    decreases |items|
  {
    if items == [] then w
    else ConsiderAll(world, connection, hashes, Consider(world, connection, hashes, w, items[0]), items[1..])
  }

  /** The state a run starts from and ends in.  `installed` is the group's list of what to report. */
  datatype State = State(store: Store, files: Files, failed: set<Bytes>, installed: seq<Bytes>)

  function Plan(world: World, group: Bytes, desired: Value, connection: Option<Bytes>, s: State): Work {
    var w := Work([], [], [], s.failed, s.files);
    if !world.lists then w.(failed := w.failed + {group})
    else
      match SectionOf(desired, group)
      case Present(items) => ConsiderAll(world, connection, Split(Listing(s.store), SOLIDUS), w, items)
      case _ => w.(failed := w.failed + {group})
  }

  // ---- carrying them out

  function UninstallAll(world: World, s: State, hashes: seq<Bytes>): State
    decreases |hashes|
  {
    if hashes == [] then s
    else
      var h := hashes[0];
      UninstallAll(world,
        if world.deletes(h) then s.(store := Deleted(s.store, h)) else s.(failed := s.failed + {UNINSTALL_CERTIFICATE}),
        hashes[1..])
  }

  /** One certificate from its temporary file, which is removed afterwards. */
  function Install(world: World, s: State, f: CertificateFile): State
    requires world.At(f) in s.files
  {
    var data, left := s.files[world.At(f)], s.files - {world.At(f)};
    if world.adds(f.thumbPrint, data) then
      State(Added(s.store, f.thumbPrint, data), left, s.failed, s.installed + [f.thumbPrint])
    else s.(files := left, failed := s.failed + {INSTALL_CERTIFICATE})
  }

  /** The flag says whether an exception escaped, because a temporary file was not there any more. */
  function InstallAll(world: World, s: State, certificates: seq<CertificateFile>): (State, bool)
    decreases |certificates|
  {
    if certificates == [] then (s, false)
    else if world.At(certificates[0]) !in s.files then (s, true)
    else InstallAll(world, Install(world, s, certificates[0]), certificates[1..])
  }

  function Modify(world: World, group: Bytes, desired: Value, connection: Option<Bytes>, s: State): (State, bool) {
    var w := Plan(world, group, desired, connection, s);
    var t := UninstallAll(world, State(s.store, w.files, w.failed, s.installed + w.kept), w.toUninstall);
    InstallAll(world, t, w.toInstall)
  }

  // ---- the work lists, item by item

  /** The settings one pass over the section is made with. */
  datatype Pass = Pass(world: World, connection: Option<Bytes>, hashes: seq<Bytes>) {
    function DecisionOn(item: Item): Decision {
      Decide(connection, IsCurrent(hashes, item.thumbprint), item.wanted)
    }

    /** The certificate fetched for an item. */
    function Brings(item: Item): Option<CertificateFile> {
      var d := DecisionOn(item);
      if d.Fetch? then Fetched(world, d, map[]).1 else None
    }

    /** The file an item is stored in, whether or not a certificate can be read from it then. */
    function Stores(item: Item): Option<Bytes> {
      var d := DecisionOn(item);
      if d.Fetch? && world.download(d.connection, d.containerAndBlob).Some? && FileName(d.containerAndBlob).Some? then
        Some(world.place(FileName(d.containerAndBlob).value))
      else None
    }

    predicate Faulty(item: Item) {
      DecisionOn(item).Fail? || (DecisionOn(item).Fetch? && Brings(item).None?)
    }

    /** The certificates to install, in the order of the items. */
    function Brought(items: seq<Item>): seq<CertificateFile> {
      if items == [] then []
      else (match Brings(items[0]) case Some(f) => [f] case None => []) + Brought(items[1..])
    }

    /** The names of the items decided one way, in order. */
    function Named(items: seq<Item>, d: Decision): seq<Bytes> {
      if items == [] then []
      else (if DecisionOn(items[0]) == d then [items[0].thumbprint] else []) + Named(items[1..], d)
    }

    function Faults(items: seq<Item>): set<Bytes> {
      set item | item in items && Faulty(item) :: item.thumbprint
    }
  }

  lemma FetchedAnyway(world: World, d: Decision, files: Files)
    requires d.Fetch?
    ensures Fetched(world, d, files).1 == Fetched(world, d, map[]).1
  {
  }

  lemma OneProduces(p: Pass, w: Work, item: Item)
    ensures var r := Consider(p.world, p.connection, p.hashes, w, item);
      && r.toInstall == w.toInstall + (match p.Brings(item) case Some(f) => [f] case None => [])
      && r.toUninstall == w.toUninstall + (if p.DecisionOn(item) == Uninstall then [item.thumbprint] else [])
      && r.kept == w.kept + (if p.DecisionOn(item) == Keep then [item.thumbprint] else [])
      && r.failed == w.failed + if p.Faulty(item) then {item.thumbprint} else {}
  {
    hide Decide, Fetched, IsCurrent;
    var d := p.DecisionOn(item);
    if d.Fetch? { FetchedAnyway(p.world, d, w.files); }
  }

  lemma NoFaults(p: Pass)
    ensures p.Faults([]) == {}
  {
  }

  lemma FaultsOfMore(p: Pass, items: seq<Item>)
    requires items != []
    ensures p.Faults(items) == (if p.Faulty(items[0]) then {items[0].thumbprint} else {}) + p.Faults(items[1..])
  {
    assert items == [items[0]] + items[1..];
  }

  /** The pass over the section produces exactly these lists. */
  lemma {:induction false} PassProduces(p: Pass, w: Work, items: seq<Item>)
    ensures var r := ConsiderAll(p.world, p.connection, p.hashes, w, items);
      && r.toInstall == w.toInstall + p.Brought(items)
      && r.toUninstall == w.toUninstall + p.Named(items, Uninstall)
      && r.kept == w.kept + p.Named(items, Keep)
      && r.failed == w.failed + p.Faults(items)
    decreases |items|
  {
    hide Decide, Fetched, IsCurrent, Consider, Pass.Brings, Pass.DecisionOn, Pass.Faulty, Pass.Faults;
    if items == [] {
      NoFaults(p);
    } else {
      OneProduces(p, w, items[0]);
      PassProduces(p, Consider(p.world, p.connection, p.hashes, w, items[0]), items[1..]);
      FaultsOfMore(p, items);
    }
  }

  lemma {:induction false} BroughtBy(p: Pass, items: seq<Item>, f: CertificateFile)
    ensures f in p.Brought(items) <==> exists item :: item in items && p.Brings(item) == Some(f)
  {
    if items != [] {
      BroughtBy(p, items[1..], f);
      assert items == [items[0]] + items[1..];
    }
  }

  lemma {:induction false} NamedBy(p: Pass, items: seq<Item>, d: Decision, h: Bytes)
    ensures h in p.Named(items, d) <==> exists item :: item in items && item.thumbprint == h && p.DecisionOn(item) == d
  {
    if items != [] {
      NamedBy(p, items[1..], d, h);
      assert items == [items[0]] + items[1..];
    }
  }

  /** Every certificate on the list still has its file, which was fetched for it or for a later one. */
  predicate FilesThere(world: World, certificates: seq<CertificateFile>, files: Files) {
    forall f :: f in certificates ==> world.At(f) in files
  }

  lemma {:induction false} PassLeavesFiles(p: Pass, w: Work, items: seq<Item>)
    requires FilesThere(p.world, w.toInstall, w.files)
    ensures var r := ConsiderAll(p.world, p.connection, p.hashes, w, items); FilesThere(p.world, r.toInstall, r.files)
    decreases |items|
  {
    hide Decide, IsCurrent;
    if items != [] {
      PassLeavesFiles(p, Consider(p.world, p.connection, p.hashes, w, items[0]), items[1..]);
    }
  }

  // ---- carrying them out, name by name

  predicate Removes(world: World, hashes: seq<Bytes>, x: Bytes) {
    exists h :: h in hashes && world.deletes(h) && SameName(h, x)
  }

  lemma {:induction false} UninstallAllEffect(world: World, s: State, hashes: seq<Bytes>, x: Bytes)
    ensures var r := UninstallAll(world, s, hashes);
      && (Has(r.store, x) <==> Has(s.store, x) && !Removes(world, hashes, x))
      && r.files == s.files && r.installed == s.installed
      && r.failed == s.failed + if forall h :: h in hashes ==> world.deletes(h) then {} else {UNINSTALL_CERTIFICATE}
    decreases |hashes|
  {
    hide Has, Deleted;
    if hashes != [] {
      var h := hashes[0];
      var t :=
        if world.deletes(h) then s.(store := Deleted(s.store, h))
        else s.(failed := s.failed + {UNINSTALL_CERTIFICATE});
      DeletedHas(s.store, h, x);
      UninstallAllEffect(world, t, hashes[1..], x);
      assert hashes == [h] + hashes[1..];
    }
  }

  predicate DistinctFiles(world: World, certificates: seq<CertificateFile>) {
    forall i, j :: 0 <= i < j < |certificates| ==> world.At(certificates[i]) != world.At(certificates[j])
  }

  /** The device accepts the certificate in the file. */
  predicate Accepts(world: World, files: Files, f: CertificateFile) {
    world.At(f) in files && world.adds(f.thumbPrint, files[world.At(f)])
  }

  predicate Installs(world: World, files: Files, certificates: seq<CertificateFile>, x: Bytes) {
    exists f :: f in certificates && Accepts(world, files, f) && SameName(f.thumbPrint, x)
  }

  function InstalledNames(world: World, files: Files, certificates: seq<CertificateFile>): seq<Bytes> {
    if certificates == [] then []
    else
      (if Accepts(world, files, certificates[0]) then [certificates[0].thumbPrint] else []) +
      InstalledNames(world, files, certificates[1..])
  }

  /** An exception escapes exactly when two certificates were fetched into one file. */
  lemma {:induction false} ThrowsExactlyOnSharedFiles(world: World, s: State, certificates: seq<CertificateFile>)
    requires FilesThere(world, certificates, s.files)
    ensures InstallAll(world, s, certificates).1 <==> !DistinctFiles(world, certificates)
    decreases |certificates|
  {
    if certificates != [] {
      var first, rest := certificates[0], certificates[1..];
      assert certificates == [first] + rest;
      var t := Install(world, s, first);
      if FilesThere(world, rest, t.files) {
        ThrowsExactlyOnSharedFiles(world, t, rest);
        assert forall j :: 0 <= j < |rest| ==> rest[j] in rest;
      } else {
        MissingFileThrows(world, t, rest);
        var f :| f in rest && world.At(f) !in t.files;
        assert world.At(f) == world.At(first);
      }
    }
  }

  lemma {:induction false} MissingFileThrows(world: World, s: State, certificates: seq<CertificateFile>)
    requires !FilesThere(world, certificates, s.files)
    ensures InstallAll(world, s, certificates).1
    decreases |certificates|
  {
    if world.At(certificates[0]) in s.files {
      assert certificates == [certificates[0]] + certificates[1..];
      MissingFileThrows(world, Install(world, s, certificates[0]), certificates[1..]);
    }
  }

  lemma InstallEffect(world: World, s: State, f: CertificateFile, x: Bytes)
    requires world.At(f) in s.files
    ensures var t := Install(world, s, f);
      && (Has(t.store, x) <==> Has(s.store, x) || (Accepts(world, s.files, f) && SameName(f.thumbPrint, x)))
      && t.files == s.files - {world.At(f)}
      && t.installed == s.installed + (if Accepts(world, s.files, f) then [f.thumbPrint] else [])
      && t.failed == s.failed + if Accepts(world, s.files, f) then {} else {INSTALL_CERTIFICATE}
  {
    hide Has, Added;
    AddedHas(s.store, f.thumbPrint, s.files[world.At(f)], x);
  }

  lemma OthersKeepTheirFiles(world: World, files: Files, first: CertificateFile, rest: seq<CertificateFile>)
    requires DistinctFiles(world, [first] + rest) && FilesThere(world, [first] + rest, files)
    ensures DistinctFiles(world, rest) && FilesThere(world, rest, files - {world.At(first)})
    ensures forall f :: f in rest ==> (Accepts(world, files - {world.At(first)}, f) <==> Accepts(world, files, f))
  {
    var all := [first] + rest;
    forall f | f in rest
      ensures world.At(f) != world.At(first) && world.At(f) in files
    {
      var i :| 0 <= i < |rest| && rest[i] == f;
      assert all[0] == first && all[i + 1] == f;
      assert f in all;
    }
    forall i, j | 0 <= i < j < |rest|
      ensures world.At(rest[i]) != world.At(rest[j])
    {
      assert all[i + 1] == rest[i] && all[j + 1] == rest[j];
    }
  }

  lemma InstallsFirst(world: World, files: Files, first: CertificateFile, rest: seq<CertificateFile>, x: Bytes)
    requires DistinctFiles(world, [first] + rest) && FilesThere(world, [first] + rest, files)
    ensures Installs(world, files, [first] + rest, x) <==>
      (Accepts(world, files, first) && SameName(first.thumbPrint, x)) ||
      Installs(world, files - {world.At(first)}, rest, x)
  {
    hide Accepts, SameName, DistinctFiles, FilesThere;
    OthersKeepTheirFiles(world, files, first, rest);
    var all := [first] + rest;
    assert first in all && forall f :: f in all <==> f == first || f in rest;
  }

  /** The certificates whose data the device accepts are in the store afterwards; no other name comes or goes. */
  lemma {:induction false} InstallAllStores(world: World, s: State, certificates: seq<CertificateFile>, x: Bytes)
    requires FilesThere(world, certificates, s.files) && DistinctFiles(world, certificates)
    ensures Has(InstallAll(world, s, certificates).0.store, x) <==>
      Has(s.store, x) || Installs(world, s.files, certificates, x)
    decreases |certificates|
  {
    hide Has, Install, Accepts, DistinctFiles, SameName, Installs, FilesThere;
    if certificates == [] {
      NoneInstalled(world, s.files, x);
    } else {
      var first, rest := certificates[0], certificates[1..];
      assert certificates == [first] + rest;
      FileOfFirst(world, s.files, first, rest);
      InstallEffect(world, s, first, x);
      OthersKeepTheirFiles(world, s.files, first, rest);
      InstallAllStores(world, Install(world, s, first), rest, x);
      InstallsFirst(world, s.files, first, rest, x);
    }
  }

  lemma NoneInstalled(world: World, files: Files, x: Bytes)
    ensures !Installs(world, files, [], x)
  {
  }

  lemma FileOfFirst(world: World, files: Files, first: CertificateFile, rest: seq<CertificateFile>)
    requires FilesThere(world, [first] + rest, files)
    ensures world.At(first) in files
  {
    assert first in [first] + rest;
  }

  lemma {:induction false} InstallAllReports(world: World, s: State, certificates: seq<CertificateFile>)
    requires FilesThere(world, certificates, s.files) && DistinctFiles(world, certificates)
    ensures InstallAll(world, s, certificates).0.installed ==
      s.installed + InstalledNames(world, s.files, certificates)
    decreases |certificates|
  {
    hide Has, Install, Accepts, DistinctFiles, SameName, FilesThere;
    if certificates != [] {
      var first, rest := certificates[0], certificates[1..];
      assert certificates == [first] + rest;
      FileOfFirst(world, s.files, first, rest);
      var t := Install(world, s, first);
      InstallEffect(world, s, first, []);
      OthersKeepTheirFiles(world, s.files, first, rest);
      InstallAllReports(world, t, rest);
      SameAcceptance(world, s.files, t.files, rest);
    }
  }

  predicate AllAccepted(world: World, files: Files, certificates: seq<CertificateFile>) {
    forall f :: f in certificates ==> Accepts(world, files, f)
  }

  lemma AllAcceptedFirst(world: World, files: Files, first: CertificateFile, rest: seq<CertificateFile>)
    requires DistinctFiles(world, [first] + rest) && FilesThere(world, [first] + rest, files)
    ensures AllAccepted(world, files, [first] + rest) <==>
      Accepts(world, files, first) && AllAccepted(world, files - {world.At(first)}, rest)
  {
    hide Accepts, DistinctFiles, FilesThere;
    OthersKeepTheirFiles(world, files, first, rest);
    var all := [first] + rest;
    assert first in all && forall f :: f in all <==> f == first || f in rest;
  }

  lemma {:induction false} InstallAllFails(world: World, s: State, certificates: seq<CertificateFile>)
    requires FilesThere(world, certificates, s.files) && DistinctFiles(world, certificates)
    ensures InstallAll(world, s, certificates).0.failed ==
      s.failed + if AllAccepted(world, s.files, certificates) then {} else {INSTALL_CERTIFICATE}
    decreases |certificates|
  {
    hide Has, Install, Accepts, DistinctFiles, SameName, FilesThere;
    if certificates != [] {
      hide AllAccepted;
      var first, rest := certificates[0], certificates[1..];
      assert certificates == [first] + rest;
      FileOfFirst(world, s.files, first, rest);
      InstallEffect(world, s, first, []);
      OthersKeepTheirFiles(world, s.files, first, rest);
      InstallAllFails(world, Install(world, s, first), rest);
      AllAcceptedFirst(world, s.files, first, rest);
    }
  }

  lemma {:induction false} SameAcceptance(world: World, a: Files, b: Files, certificates: seq<CertificateFile>)
    requires forall f :: f in certificates ==> (Accepts(world, a, f) <==> Accepts(world, b, f))
    ensures InstalledNames(world, a, certificates) == InstalledNames(world, b, certificates)
  {
    if certificates != [] {
      assert certificates == [certificates[0]] + certificates[1..];
      SameAcceptance(world, a, b, certificates[1..]);
    }
  }

  // ---- up to an exception

  /** The certificates before the first whose file has been taken by one before it. */
  function Carried(world: World, certificates: seq<CertificateFile>): (r: seq<CertificateFile>)
    ensures DistinctFiles(world, r) && r <= certificates
    ensures DistinctFiles(world, certificates) ==> r == certificates
    decreases |certificates|
  {
    if DistinctFiles(world, certificates) then certificates
    else Carried(world, certificates[..|certificates| - 1])
  }

  lemma {:induction false} CarriedIsLongest(world: World, certificates: seq<CertificateFile>)
    ensures forall n ::
      |Carried(world, certificates)| < n <= |certificates| ==> !DistinctFiles(world, certificates[..n])
    decreases |certificates|
  {
    if !DistinctFiles(world, certificates) {
      var before := certificates[..|certificates| - 1];
      CarriedIsLongest(world, before);
      forall n | |Carried(world, certificates)| < n <= |certificates|
        ensures !DistinctFiles(world, certificates[..n])
      {
        if n == |certificates| {
          assert certificates[..n] == certificates;
        } else {
          assert before[..n] == certificates[..n];
        }
      }
    }
  }

  lemma {:induction false} InstallInParts(world: World, s: State, a: seq<CertificateFile>, b: seq<CertificateFile>)
    ensures var (t, threw) := InstallAll(world, s, a);
      InstallAll(world, s, a + b) == if threw then (t, threw) else InstallAll(world, t, b)
    decreases |a|
  {
    hide Install;
    if a == [] {
      assert a + b == b;
    } else {
      assert (a + b)[1..] == a[1..] + b;
      if world.At(a[0]) in s.files {
        InstallInParts(world, Install(world, s, a[0]), a[1..], b);
      }
    }
  }

  lemma ThrowsAtOnce(world: World, s: State, f: CertificateFile)
    ensures InstallAll(world, s, [f]).1 ==> InstallAll(world, s, [f]) == (s, true)
  {
    hide Install;
    assert [f][1..] == [];
  }

  /** What the loop over the certificates leaves behind is what those before the exception leave. */
  lemma {:induction false} OnlyCarriedCount(world: World, s: State, certificates: seq<CertificateFile>)
    requires FilesThere(world, certificates, s.files)
    ensures InstallAll(world, s, certificates).0 == InstallAll(world, s, Carried(world, certificates)).0
    decreases |certificates|
  {
    hide InstallAll, DistinctFiles;
    if !DistinctFiles(world, certificates) {
      NoneOrOneIsDistinct(world, certificates);
      var before, last := certificates[..|certificates| - 1], certificates[|certificates| - 1];
      assert certificates == before + [last];
      InstallInParts(world, s, before, [last]);
      ThrowsExactlyOnSharedFiles(world, s, certificates);
      ThrowsExactlyOnSharedFiles(world, s, before);
      OnlyCarriedCount(world, s, before);
      if DistinctFiles(world, before) {
        ThrowsAtOnce(world, InstallAll(world, s, before).0, last);
      }
    }
  }

  lemma NoneOrOneIsDistinct(world: World, certificates: seq<CertificateFile>)
    ensures !DistinctFiles(world, certificates) ==> |certificates| > 1
  {
  }

  // ---- one run

  function PassOver(world: World, connection: Option<Bytes>, s: State): Pass {
    Pass(world, connection, Split(Listing(s.store), SOLIDUS))
  }

  /** One run deletes exactly the present certificates desired uninstalled, adds exactly the absent ones desired
      installed that could be fetched, and touches no other name; commands the device refuses change nothing.  It
      reports the certificates found as wanted and those that were added.  An exception escapes exactly when two
      fetched certificates share a file; then everything before the second of them has been done all the same. */
  lemma OneRun(world: World, group: Bytes, desired: Value, connection: Option<Bytes>, s: State, items: seq<Item>)
    requires world.lists && SectionOf(desired, group) == Present(items) && IsStore(s.store)
    ensures var (p, w) := (PassOver(world, connection, s), Plan(world, group, desired, connection, s));
      var (t, threw) := Modify(world, group, desired, connection, s);
      var (deletions, done) := (p.Named(items, Uninstall), Carried(world, p.Brought(items)));
      && (forall item :: item in items ==>
        p.DecisionOn(item) == Decide(connection, Has(s.store, item.thumbprint), item.wanted))
      && (threw <==> !DistinctFiles(world, p.Brought(items)))
      && (forall x :: Has(t.store, x) <==>
          (Has(s.store, x) && !Removes(world, deletions, x)) || Installs(world, w.files, done, x))
      && t.installed == s.installed + p.Named(items, Keep) + InstalledNames(world, w.files, done)
      && t.failed == s.failed + p.Faults(items) + Refusals(world, w.files, deletions, done)
  {
    hide Decide, Has, UninstallAll, InstallAll, ConsiderAll, Installs, Removes, Accepts, AllAccepted, DistinctFiles;
    hide InstalledNames, Carried, FilesThere;
    hide Pass.Brings, Pass.Faulty, Pass.Faults, Pass.Brought, Pass.Named;
    var p, w := PassOver(world, connection, s), Plan(world, group, desired, connection, s);
    var empty := Work([], [], [], s.failed, s.files);
    PassProduces(p, empty, items);
    NoFilesNeeded(world, s.files);
    PassLeavesFiles(p, empty, items);
    assert w.toInstall == p.Brought(items) && w.toUninstall == p.Named(items, Uninstall);
    assert w.kept == p.Named(items, Keep);
    forall item | item in items
      ensures p.DecisionOn(item) == Decide(connection, Has(s.store, item.thumbprint), item.wanted)
    {
      CurrentMeansHas(s.store, item.thumbprint);
    }
    var before := State(s.store, w.files, w.failed, s.installed + w.kept);
    var middle, done := UninstallAll(world, before, w.toUninstall), Carried(world, w.toInstall);
    UninstallAllEffect(world, before, w.toUninstall, []);
    ThrowsExactlyOnSharedFiles(world, middle, w.toInstall);
    OnlyCarriedCount(world, middle, w.toInstall);
    FewerFilesThere(world, done, w.toInstall, middle.files);
    InstallAllReports(world, middle, done);
    InstallAllFails(world, middle, done);
    forall x
      ensures Has(InstallAll(world, middle, w.toInstall).0.store, x) <==>
        (Has(s.store, x) && !Removes(world, w.toUninstall, x)) || Installs(world, w.files, done, x)
    {
      UninstallAllEffect(world, before, w.toUninstall, x);
      InstallAllStores(world, middle, done, x);
    }
  }

  lemma NoFilesNeeded(world: World, files: Files)
    ensures FilesThere(world, [], files)
  {
  }

  lemma FewerFilesThere(world: World, a: seq<CertificateFile>, b: seq<CertificateFile>, files: Files)
    requires a <= b && FilesThere(world, b, files)
    ensures FilesThere(world, a, files)
  {
    assert forall f :: f in a ==> f in b;
  }

  /** The operations under whose names the commands that the device refused are reported. */
  function Refusals(world: World, files: Files, deletions: seq<Bytes>, done: seq<CertificateFile>): set<Bytes> {
    (if forall h :: h in deletions ==> world.deletes(h) then {} else {UNINSTALL_CERTIFICATE}) +
    (if AllAccepted(world, files, done) then {} else {INSTALL_CERTIFICATE})
  }

  /** When the store cannot be listed or the section is invalid, the run only reports that. */
  lemma NothingWithoutAList(world: World, group: Bytes, desired: Value, connection: Option<Bytes>, s: State)
    requires !world.lists || !SectionOf(desired, group).Present?
    ensures Modify(world, group, desired, connection, s) == (s.(failed := s.failed + {group}), false)
  {
    assert s.installed + [] == s.installed;
  }

  // ---- what is installed is what was fetched

  predicate StoredAgain(p: Pass, file: Bytes, items: seq<Item>) {
    exists item :: item in items && p.Stores(item) == Some(file)
  }

  /** The file of a fetched certificate is stored again by a later item, which need not bring a certificate itself. */
  predicate Overwritten(p: Pass, items: seq<Item>) {
    exists i, j ::
      && 0 <= i < j < |items| && p.Brings(items[i]).Some?
      && p.Stores(items[j]) == Some(p.world.At(p.Brings(items[i]).value))
  }

  /** The file holds a certificate with this thumbprint. */
  predicate Holds(world: World, files: Files, f: CertificateFile) {
    world.At(f) in files && world.thumbprint(files[world.At(f)]) == Some(f.thumbPrint)
  }

  /** Every listed certificate has its own file, which holds it, and the items to come will not change that. */
  predicate InOrder(p: Pass, w: Work, items: seq<Item>) {
    && DistinctFiles(p.world, w.toInstall) && !Overwritten(p, items)
    && forall f :: f in w.toInstall ==> Holds(p.world, w.files, f) && !StoredAgain(p, p.world.At(f), items)
  }

  lemma StoredAgainFirst(p: Pass, file: Bytes, item: Item, rest: seq<Item>)
    ensures StoredAgain(p, file, [item] + rest) <==> p.Stores(item) == Some(file) || StoredAgain(p, file, rest)
  {
    hide Pass.Stores;
    var items := [item] + rest;
    assert item in items && forall other :: other in items <==> other == item || other in rest;
  }

  lemma OverwrittenFirst(p: Pass, item: Item, rest: seq<Item>)
    ensures Overwritten(p, [item] + rest) <==>
      || (p.Brings(item).Some? && StoredAgain(p, p.world.At(p.Brings(item).value), rest))
      || Overwritten(p, rest)
  {
    hide Pass.Stores, Pass.Brings;
    var items := [item] + rest;
    if Overwritten(p, items) {
      var i, j :|
        && 0 <= i < j < |items| && p.Brings(items[i]).Some?
        && p.Stores(items[j]) == Some(p.world.At(p.Brings(items[i]).value));
      assert items[j] == rest[j - 1];
      if i > 0 { assert items[i] == rest[i - 1]; }
    }
    OverwrittenLonger(p, item, rest);
  }

  lemma OverwrittenLonger(p: Pass, item: Item, rest: seq<Item>)
    ensures Overwritten(p, rest) ==> Overwritten(p, [item] + rest)
    ensures p.Brings(item).Some? && StoredAgain(p, p.world.At(p.Brings(item).value), rest) ==>
      Overwritten(p, [item] + rest)
  {
    hide Pass.Stores, Pass.Brings;
    var items := [item] + rest;
    if Overwritten(p, rest) {
      var i, j :|
        && 0 <= i < j < |rest| && p.Brings(rest[i]).Some?
        && p.Stores(rest[j]) == Some(p.world.At(p.Brings(rest[i]).value));
      assert items[i + 1] == rest[i] && items[j + 1] == rest[j];
    }
    if p.Brings(item).Some? && StoredAgain(p, p.world.At(p.Brings(item).value), rest) {
      var other :| other in rest && p.Stores(other) == Some(p.world.At(p.Brings(item).value));
      var j :| 0 <= j < |rest| && rest[j] == other;
      assert items[0] == item && items[j + 1] == other;
    }
  }

  /** What an item does to the files and to the list of certificates to install. */
  lemma ConsiderStores(p: Pass, w: Work, item: Item)
    ensures var r := Consider(p.world, p.connection, p.hashes, w, item);
      match p.Stores(item)
      case None => r.files == w.files && r.toInstall == w.toInstall && p.Brings(item).None?
      case Some(file) =>
        && file in r.files && (forall g :: g != file ==> (g in r.files <==> g in w.files))
        && (forall g :: g != file && g in w.files ==> r.files[g] == w.files[g])
        && match p.world.thumbprint(r.files[file])
           case None => r.toInstall == w.toInstall && p.Brings(item).None?
           case Some(t) =>
             && p.Brings(item).Some? && r.toInstall == w.toInstall + [p.Brings(item).value]
             && p.world.At(p.Brings(item).value) == file && p.Brings(item).value.thumbPrint == t
  {
    hide Decide, IsCurrent, FileName;
  }

  lemma DistinctWithOneMore(world: World, certificates: seq<CertificateFile>, f: CertificateFile)
    ensures DistinctFiles(world, certificates + [f]) <==>
      DistinctFiles(world, certificates) && forall g :: g in certificates ==> world.At(g) != world.At(f)
  {
    var all := certificates + [f];
    assert forall i :: 0 <= i < |certificates| ==> all[i] == certificates[i];
    if DistinctFiles(world, all) {
      forall g | g in certificates
        ensures world.At(g) != world.At(f)
      {
        var i :| 0 <= i < |certificates| && certificates[i] == g;
        assert all[i] == g && all[|certificates|] == f;
      }
    }
  }

  lemma ConsiderKeepsOrder(p: Pass, w: Work, item: Item, rest: seq<Item>)
    ensures InOrder(p, w, [item] + rest) <==>
      InOrder(p, Consider(p.world, p.connection, p.hashes, w, item), rest)
  {
    hide Consider, Overwritten, StoredAgain, DistinctFiles, Pass.Stores, Pass.Brings;
    var r := Consider(p.world, p.connection, p.hashes, w, item);
    ConsiderStores(p, w, item);
    OverwrittenFirst(p, item, rest);
    forall f | f in w.toInstall
      ensures StoredAgain(p, p.world.At(f), [item] + rest) <==>
        p.Stores(item) == Some(p.world.At(f)) || StoredAgain(p, p.world.At(f), rest)
    {
      StoredAgainFirst(p, p.world.At(f), item, rest);
    }
    if p.Brings(item).Some? {
      DistinctWithOneMore(p.world, w.toInstall, p.Brings(item).value);
    }
  }

  lemma {:induction false} PassKeepsOrder(p: Pass, w: Work, items: seq<Item>)
    ensures InOrder(p, w, items) <==> InOrder(p, ConsiderAll(p.world, p.connection, p.hashes, w, items), [])
    decreases |items|
  {
    hide Consider, InOrder;
    if items != [] {
      assert items == [items[0]] + items[1..];
      ConsiderKeepsOrder(p, w, items[0], items[1..]);
      PassKeepsOrder(p, Consider(p.world, p.connection, p.hashes, w, items[0]), items[1..]);
    }
  }

  /** No exception escapes and each certificate is installed from data with its thumbprint, exactly if no fetched
      certificate's file is stored again by a later item. */
  lemma RightDataExactlyIfNotOverwritten(world: World, group: Bytes, desired: Value, connection: Option<Bytes>,
                                         s: State, items: seq<Item>)
    requires world.lists && SectionOf(desired, group) == Present(items) && IsStore(s.store)
    ensures var (p, w) := (PassOver(world, connection, s), Plan(world, group, desired, connection, s));
      !Overwritten(p, items) <==>
        && !Modify(world, group, desired, connection, s).1
        && forall f :: f in p.Brought(items) ==> Holds(world, w.files, f)
  {
    hide Modify, Plan, Overwritten, ConsiderAll, Holds, DistinctFiles, InOrder, PassOver, Pass.Brought;
    var p, w := PassOver(world, connection, s), Plan(world, group, desired, connection, s);
    var empty := Work([], [], [], s.failed, s.files);
    RunThrows(world, group, desired, connection, s, items);
    PlanOf(world, group, desired, connection, s, items);
    PassKeepsOrder(p, empty, items);
    AtBothEnds(p, empty, w, items);
  }

  lemma RunThrows(world: World, group: Bytes, desired: Value, connection: Option<Bytes>, s: State, items: seq<Item>)
    requires world.lists && SectionOf(desired, group) == Present(items) && IsStore(s.store)
    ensures Modify(world, group, desired, connection, s).1 <==>
      !DistinctFiles(world, PassOver(world, connection, s).Brought(items))
  {
    hide Modify, Plan, Has, Installs, Removes, DistinctFiles, InstalledNames, Pass.Brought, PassOver, Decide, IsStore;
    OneRun(world, group, desired, connection, s, items);
  }

  lemma PlanOf(world: World, group: Bytes, desired: Value, connection: Option<Bytes>, s: State, items: seq<Item>)
    requires world.lists && SectionOf(desired, group) == Present(items)
    ensures var (p, w) := (PassOver(world, connection, s), Plan(world, group, desired, connection, s));
      && p.world == world && w.toInstall == p.Brought(items)
      && w == ConsiderAll(p.world, p.connection, p.hashes, Work([], [], [], s.failed, s.files), items)
  {
    hide ConsiderAll, Pass.Brought, Pass.Named, Pass.Faults;
    PassProduces(PassOver(world, connection, s), Work([], [], [], s.failed, s.files), items);
  }

  lemma AtBothEnds(p: Pass, empty: Work, w: Work, items: seq<Item>)
    requires empty.toInstall == []
    ensures InOrder(p, empty, items) <==> !Overwritten(p, items)
    ensures InOrder(p, w, []) <==>
      DistinctFiles(p.world, w.toInstall) && forall f :: f in w.toInstall ==> Holds(p.world, w.files, f)
  {
  }

  /** The file an item would be stored in. */
  function Source(p: Pass, item: Item): Option<Bytes> {
    var d := p.DecisionOn(item);
    if d.Fetch? && FileName(d.containerAndBlob).Some? then Some(p.world.place(FileName(d.containerAndBlob).value))
    else None
  }

  /** No two items lead to one file. */
  predicate DistinctSources(p: Pass, items: seq<Item>) {
    forall i, j :: 0 <= i < j < |items| && Source(p, items[i]).Some? ==> Source(p, items[i]) != Source(p, items[j])
  }

  /** It is enough that the desired configuration names no file twice, whatever can be downloaded. */
  lemma DistinctSourcesInstallTheRightData(world: World, group: Bytes, desired: Value, connection: Option<Bytes>,
                                           s: State, items: seq<Item>)
    requires world.lists && SectionOf(desired, group) == Present(items) && IsStore(s.store)
    requires DistinctSources(PassOver(world, connection, s), items)
    ensures var (p, w) := (PassOver(world, connection, s), Plan(world, group, desired, connection, s));
      && !Modify(world, group, desired, connection, s).1
      && forall f :: f in p.Brought(items) ==> Holds(world, w.files, f)
  {
    hide Modify, Plan, DistinctSources, Overwritten, Holds;
    DistinctSourcesAreNotOverwritten(PassOver(world, connection, s), items);
    RightDataExactlyIfNotOverwritten(world, group, desired, connection, s, items);
  }

  lemma DistinctSourcesAreNotOverwritten(p: Pass, items: seq<Item>)
    requires DistinctSources(p, items)
    ensures !Overwritten(p, items)
  {
    hide Decide, IsCurrent, FileName;
  }

  lemma {:induction false} OneFileForTwo(p: Pass, items: seq<Item>, i: nat, j: nat)
    requires i < j < |items| && p.Brings(items[i]).Some? && p.Brings(items[j]).Some?
    requires p.world.At(p.Brings(items[i]).value) == p.world.At(p.Brings(items[j]).value)
    ensures !DistinctFiles(p.world, p.Brought(items))
    decreases |items|
  {
    hide Decide, Fetched, IsCurrent;
    var rest := items[1..];
    assert items == [items[0]] + rest;
    if i > 0 {
      OneFileForTwo(p, rest, i - 1, j - 1);
      LongerIsNotDistinct(p.world, match p.Brings(items[0]) case Some(f) => [f] case None => [], p.Brought(rest));
    } else {
      assert rest[j - 1] == items[j];
      BroughtBy(p, rest, p.Brings(items[j]).value);
      var k :| 0 <= k < |p.Brought(rest)| && p.Brought(rest)[k] == p.Brings(items[j]).value;
      assert p.Brought(items) == [p.Brings(items[0]).value] + p.Brought(rest);
      assert p.Brought(items)[k + 1] == p.Brought(rest)[k] && p.Brought(items)[0] == p.Brings(items[0]).value;
    }
  }

  lemma LongerIsNotDistinct(world: World, a: seq<CertificateFile>, b: seq<CertificateFile>)
    requires !DistinctFiles(world, b)
    ensures !DistinctFiles(world, a + b)
  {
    var i, j :| 0 <= i < j < |b| && world.At(b[i]) == world.At(b[j]);
    assert (a + b)[|a| + i] == b[i] && (a + b)[|a| + j] == b[j];
  }

  /** The container does not keep files apart: x\f and y\f are both kept in f. */
  lemma ContainersShareFiles()
    ensures FileName([0x78, REVERSE_SOLIDUS, 0x66]) == FileName([0x79, REVERSE_SOLIDUS, 0x66]) == Some([0x66])
  {
    SplitHead([0x78], REVERSE_SOLIDUS, [0x66]);
    SplitHead([0x79], REVERSE_SOLIDUS, [0x66]);
    SplitWhole([0x66], REVERSE_SOLIDUS);
    assert [0x78] + [REVERSE_SOLIDUS] + [0x66] == [0x78, REVERSE_SOLIDUS, 0x66];
    assert [0x79] + [REVERSE_SOLIDUS] + [0x66] == [0x79, REVERSE_SOLIDUS, 0x66];
  }

  ghost predicate IgnoresCase(world: World) {
    forall a, b :: Lower(a) == Lower(b) ==> world.place(a) == world.place(b)
  }

  /** Where the file system ignores case, two certificates whose files differ in case alone make the run throw. */
  lemma CaseDoesNotKeepFilesApart(world: World, group: Bytes, desired: Value, connection: Option<Bytes>, s: State,
                                  items: seq<Item>, i: nat, j: nat)
    requires world.lists && SectionOf(desired, group) == Present(items) && IsStore(s.store) && IgnoresCase(world)
    requires var p := PassOver(world, connection, s);
      && i < j < |items| && p.Brings(items[i]).Some? && p.Brings(items[j]).Some?
      && Lower(p.Brings(items[i]).value.fullFileName) == Lower(p.Brings(items[j]).value.fullFileName)
    ensures Modify(world, group, desired, connection, s).1
  {
    hide Modify, PassOver, IsStore, DistinctFiles, Pass.Brings, Pass.Brought;
    var p := PassOver(world, connection, s);
    assert p.world == world by { PlanOf(world, group, desired, connection, s, items); }
    OneFileForTwo(p, items, i, j);
    RunThrows(world, group, desired, connection, s, items);
  }

  /** x\Cert and y\cert. */
  lemma NamesThatDifferInCase()
    ensures FileName([0x78, REVERSE_SOLIDUS, 0x43, 0x65, 0x72, 0x74]) == Some([0x43, 0x65, 0x72, 0x74])
    ensures FileName([0x79, REVERSE_SOLIDUS, 0x63, 0x65, 0x72, 0x74]) == Some([0x63, 0x65, 0x72, 0x74])
    ensures Lower([0x43, 0x65, 0x72, 0x74]) == Lower([0x63, 0x65, 0x72, 0x74])
  {
    var c, d: Bytes := [0x43, 0x65, 0x72, 0x74], [0x63, 0x65, 0x72, 0x74];
    SplitHead([0x78], REVERSE_SOLIDUS, c);
    SplitHead([0x79], REVERSE_SOLIDUS, d);
    SplitWhole(c, REVERSE_SOLIDUS);
    SplitWhole(d, REVERSE_SOLIDUS);
    assert [0x78] + [REVERSE_SOLIDUS] + c == [0x78, REVERSE_SOLIDUS, 0x43, 0x65, 0x72, 0x74];
    assert [0x79] + [REVERSE_SOLIDUS] + d == [0x79, REVERSE_SOLIDUS, 0x63, 0x65, 0x72, 0x74];
    assert Lower(c) == Lower(d);
  }

  // ---- a second run

  /** No two keys are the same but for case. */
  predicate DistinctKeys(items: seq<Item>) {
    forall i, j :: 0 <= i < j < |items| ==> !SameName(items[i].thumbprint, items[j].thumbprint)
  }

  /** Each file that is fetched holds the certificate of its key. */
  predicate FilesMatchKeys(p: Pass, items: seq<Item>) {
    forall item :: item in items && p.Brings(item).Some? ==>
      SameName(p.Brings(item).value.thumbPrint, item.thumbprint) && IsNodeName(p.Brings(item).value.thumbPrint)
  }

  lemma SameKeySameItem(items: seq<Item>, a: Item, b: Item)
    requires DistinctKeys(items) && a in items && b in items && SameName(a.thumbprint, b.thumbprint)
    ensures a == b
  {
    var i :| 0 <= i < |items| && items[i] == a;
    var j :| 0 <= j < |items| && items[j] == b;
  }

  /** After a run without failures, each key is present exactly if it is desired installed. */
  lemma KeySettled(p: Pass, items: seq<Item>, files: Files, before: Store, after: Store, item: Item)
    requires DistinctKeys(items) && FilesMatchKeys(p, items) && item in items && !p.Faulty(item)
    requires p.DecisionOn(item) == Decide(p.connection, Has(before, item.thumbprint), item.wanted)
    requires forall h :: h in p.Named(items, Uninstall) ==> p.world.deletes(h)
    requires forall f :: f in p.Brought(items) ==> Accepts(p.world, files, f)
    requires Has(after, item.thumbprint) <==>
      (Has(before, item.thumbprint) && !Removes(p.world, p.Named(items, Uninstall), item.thumbprint)) ||
      Installs(p.world, files, p.Brought(items), item.thumbprint)
    ensures Decide(p.connection, Has(after, item.thumbprint), item.wanted) in {Keep, NothingToDo}
  {
    hide Has, SameName, Accepts, DistinctKeys;
    var x := item.thumbprint;
    if Removes(p.world, p.Named(items, Uninstall), x) {
      var h :| h in p.Named(items, Uninstall) && p.world.deletes(h) && SameName(h, x);
      NamedBy(p, items, Uninstall, h);
      var other :| other in items && other.thumbprint == h && p.DecisionOn(other) == Uninstall;
      SameKeySameItem(items, other, item);
    }
    if Installs(p.world, files, p.Brought(items), x) {
      var f :| f in p.Brought(items) && Accepts(p.world, files, f) && SameName(f.thumbPrint, x);
      BroughtBy(p, items, f);
      var other :| other in items && p.Brings(other) == Some(f);
      SameAsBoth(f.thumbPrint, other.thumbprint, x);
      SameKeySameItem(items, other, item);
    }
    NamedBy(p, items, Uninstall, x);
    SameAsBoth(x, x, x);
    if p.DecisionOn(item).Fetch? {
      BroughtBy(p, items, p.Brings(item).value);
    }
  }

  lemma SameAsBoth(a: Bytes, b: Bytes, c: Bytes)
    ensures SameName(a, b) && SameName(a, c) ==> SameName(b, c)
    ensures SameName(a, a)
  {
  }

  lemma {:induction false} DeletedIsStore(store: Store, name: Bytes)
    requires IsStore(store)
    ensures IsStore(Deleted(store, name))
  {
    if store != [] {
      assert IsNodeName(store[0].name);
      assert forall i :: 0 <= i < |store[1..]| ==> store[1..][i] == store[i + 1];
      DeletedIsStore(store[1..], name);
    }
  }

  lemma {:induction false} UninstallAllIsStore(world: World, s: State, hashes: seq<Bytes>)
    requires IsStore(s.store)
    ensures IsStore(UninstallAll(world, s, hashes).store)
    decreases |hashes|
  {
    hide IsStore, Deleted;
    if hashes != [] {
      var h := hashes[0];
      DeletedIsStore(s.store, h);
      UninstallAllIsStore(world,
        if world.deletes(h) then s.(store := Deleted(s.store, h)) else s.(failed := s.failed + {UNINSTALL_CERTIFICATE}),
        hashes[1..]);
    }
  }

  lemma {:induction false} InstallAllIsStore(world: World, s: State, certificates: seq<CertificateFile>)
    requires IsStore(s.store) && forall f :: f in certificates ==> IsNodeName(f.thumbPrint)
    ensures IsStore(InstallAll(world, s, certificates).0.store)
    decreases |certificates|
  {
    if certificates != [] && world.At(certificates[0]) in s.files {
      DeletedIsStore(s.store, certificates[0].thumbPrint);
      assert IsNodeName(certificates[0].thumbPrint);
      InstallAllIsStore(world, Install(world, s, certificates[0]), certificates[1..]);
    }
  }

  lemma ModifyIsStore(world: World, group: Bytes, desired: Value, connection: Option<Bytes>, s: State, items: seq<Item>)
    requires world.lists && SectionOf(desired, group) == Present(items) && IsStore(s.store)
    requires FilesMatchKeys(PassOver(world, connection, s), items)
    ensures IsStore(Modify(world, group, desired, connection, s).0.store)
  {
    hide IsStore, UninstallAll, InstallAll, ConsiderAll, IsNodeName;
    var p, w := PassOver(world, connection, s), Plan(world, group, desired, connection, s);
    PassProduces(p, Work([], [], [], s.failed, s.files), items);
    forall f | f in w.toInstall
      ensures IsNodeName(f.thumbPrint)
    {
      BroughtBy(p, items, f);
    }
    var before := State(s.store, w.files, w.failed, s.installed + w.kept);
    UninstallAllIsStore(world, before, w.toUninstall);
    InstallAllIsStore(world, UninstallAll(world, before, w.toUninstall), w.toInstall);
  }

  lemma {:induction false} NothingLeftToDo(p: Pass, items: seq<Item>)
    requires forall item :: item in items ==> p.DecisionOn(item) in {Keep, NothingToDo}
    ensures p.Brought(items) == [] && p.Named(items, Uninstall) == [] && p.Faults(items) == {}
  {
    if items != [] {
      assert items[0] in items;
      NothingLeftToDo(p, items[1..]);
    }
  }

  /** If every operation of a run succeeded and the files matched their keys, a second run issues no command: it only
      reports the certificates again. */
  lemma SecondRunDoesNothing(world: World, group: Bytes, desired: Value, connection: Option<Bytes>, s: State,
                             items: seq<Item>)
    requires world.lists && SectionOf(desired, group) == Present(items) && IsStore(s.store)
    requires DistinctKeys(items) && FilesMatchKeys(PassOver(world, connection, s), items)
    requires var (t, threw) := Modify(world, group, desired, connection, s); !threw && t.failed == {}
    ensures var t := Modify(world, group, desired, connection, s).0;
      var p := PassOver(world, connection, t);
      && p.Brought(items) == [] && p.Named(items, Uninstall) == []
      && Modify(world, group, desired, connection, t) == (t.(installed := t.installed + p.Named(items, Keep)), false)
  {
    hide Modify, Plan, IsStore, Decide, Has, DistinctKeys, FilesMatchKeys;
    var p, w := PassOver(world, connection, s), Plan(world, group, desired, connection, s);
    var t := Modify(world, group, desired, connection, s).0;
    var q := PassOver(world, connection, t);
    OneRun(world, group, desired, connection, s, items);
    ModifyIsStore(world, group, desired, connection, s, items);
    forall item | item in items
      ensures q.DecisionOn(item) in {Keep, NothingToDo}
    {
      if p.Faulty(item) { FaultIsReported(p, items, item); }
      KeySettled(p, items, w.files, s.store, t.store, item);
      CurrentMeansHas(t.store, item.thumbprint);
    }
    NothingLeftToDo(q, items);
    EmptyListsChangeNothing(world, group, desired, connection, t, items);
  }

  lemma FaultIsReported(p: Pass, items: seq<Item>, item: Item)
    requires item in items && p.Faulty(item)
    ensures item.thumbprint in p.Faults(items)
  {
  }

  lemma EmptyListsChangeNothing(world: World, group: Bytes, desired: Value, connection: Option<Bytes>, s: State,
                                items: seq<Item>)
    requires world.lists && SectionOf(desired, group) == Present(items)
    requires forall item :: item in items ==> PassOver(world, connection, s).DecisionOn(item) in {Keep, NothingToDo}
    ensures Modify(world, group, desired, connection, s) ==
      (s.(installed := s.installed + PassOver(world, connection, s).Named(items, Keep)), false)
  {
    hide ConsiderAll, Decide;
    var p := PassOver(world, connection, s);
    var w := Work([], [], [], s.failed, s.files);
    PassProduces(p, w, items);
    NothingLeftToDo(p, items);
    NoFilesTouched(p, w, items);
    var plan := Plan(world, group, desired, connection, s);
    assert plan.toInstall == [] && plan.toUninstall == [] && plan.kept == p.Named(items, Keep);
    assert plan.failed == s.failed && plan.files == s.files;
  }

  lemma {:induction false} NoFilesTouched(p: Pass, w: Work, items: seq<Item>)
    requires forall item :: item in items ==> p.DecisionOn(item) in {Keep, NothingToDo}
    ensures ConsiderAll(p.world, p.connection, p.hashes, w, items).files == w.files
    decreases |items|
  {
    hide Decide;
    if items != [] {
      assert items[0] in items;
      NoFilesTouched(p, Consider(p.world, p.connection, p.hashes, w, items[0]), items[1..]);
    }
  }

  // ---- the handler

  class CertificateManagementHandler {
    const world: World
    var store: Store
    var files: Files
    var failed: set<Bytes>
    var installedCertificates: map<Bytes, seq<Bytes>>

    constructor (world: World, store: Store)
      ensures this.world == world && StateOf([]) == State(store, map[], {}, []) && installedCertificates == map[]
    {
      this.world, this.store, files, failed, installedCertificates := world, store, map[], {}, map[];
    }

    function Reported(group: Bytes): seq<Bytes>
      reads this
    {
      if group in installedCertificates then installedCertificates[group] else []
    }

    function StateOf(group: Bytes): State
      reads this
    {
      State(store, files, failed, Reported(group))
    }

    /** installedCertificates[subGroupId].push_back. */
    method Report(group: Bytes, thumbprint: Bytes)
      modifies this`installedCertificates
      ensures StateOf(group) == old(StateOf(group)).(installed := old(Reported(group)) + [thumbprint])
      ensures forall g :: g != group ==> Reported(g) == old(Reported(g))
    {
      installedCertificates := installedCertificates[group := Reported(group) + [thumbprint]];
    }

    method IsCurrentlyInstalled(currentHashes: seq<Bytes>, thumbprint: Bytes) returns (found: bool)
      ensures found <==> IsCurrent(currentHashes, thumbprint)
    {
      hide SameName;
      found := false;
      for i := 0 to |currentHashes|
        invariant !found && forall j :: 0 <= j < i ==> !SameName(currentHashes[j], thumbprint)
      {
        if SameName(currentHashes[i], thumbprint) {
          return true;
        }
      }
    }

    /** The inner operation for one item; `base` is what the group reported before, and `kept` what was found since. */
    method ConsiderCertificate(group: Bytes, connection: Option<Bytes>, currentHashes: seq<Bytes>, item: Item,
                               certificatesToInstall: seq<CertificateFile>, certificatesToUninstall: seq<Bytes>,
                               ghost base: seq<Bytes>, ghost kept: seq<Bytes>)
      returns (toInstall: seq<CertificateFile>, toUninstall: seq<Bytes>, ghost nowKept: seq<Bytes>)
      requires Reported(group) == base + kept
      modifies this
      ensures Work(toInstall, toUninstall, nowKept, failed, files) ==
        Consider(world, connection, currentHashes,
                 Work(certificatesToInstall, certificatesToUninstall, kept, old(failed), old(files)), item)
      ensures store == old(store) && Reported(group) == base + nowKept
      ensures forall g :: g != group ==> Reported(g) == old(Reported(g))
    {
      hide Decide, Fetched, IsCurrent;
      toInstall, toUninstall, nowKept := certificatesToInstall, certificatesToUninstall, kept;
      var isCurrentlyInstalled := IsCurrentlyInstalled(currentHashes, item.thumbprint);
      var decision := Decide(connection, isCurrentlyInstalled, item.wanted);
      match decision {
        case Keep =>
          Report(group, item.thumbprint);
          nowKept := nowKept + [item.thumbprint];
          assert base + kept + [item.thumbprint] == base + nowKept;
        case Uninstall => toUninstall := toUninstall + [item.thumbprint];
        case NothingToDo =>
        case Fail => failed := failed + {item.thumbprint};
        case Fetch(_, _) =>
          var fetched := Fetched(world, decision, files);
          files := fetched.0;
          if fetched.1.None? {
            failed := failed + {item.thumbprint};
          } else {
            toInstall := toInstall + [fetched.1.value];
          }
      }
    }

    /** The outer operation, which builds the work lists. */
    method BuildLists(group: Bytes, desired: Value, connection: Option<Bytes>)
      returns (toInstall: seq<CertificateFile>, toUninstall: seq<Bytes>)
      modifies this
      ensures var s, w := old(StateOf(group)), Plan(world, group, desired, connection, old(StateOf(group)));
        && toInstall == w.toInstall && toUninstall == w.toUninstall
        && StateOf(group) == State(s.store, w.files, w.failed, s.installed + w.kept)
      ensures forall g :: g != group ==> Reported(g) == old(Reported(g))
    {
      hide ConsiderAll, Consider, Listing, Split;
      toInstall, toUninstall := [], [];
      ghost var base, kept := Reported(group), [];
      assert base + kept == base;
      if !world.lists {
        failed := failed + {group};
        return;
      }
      var currentHashes := SplitString.SplitString(Listing(store), SOLIDUS, []);
      assert currentHashes == Split(Listing(store), SOLIDUS);
      var section := SectionOf(desired, group);
      if !section.Present? {
        failed := failed + {group};
        return;
      }
      var items := section.value;
      ghost var plan := Plan(world, group, desired, connection, StateOf(group));
      var i := 0;
      assert items[0..] == items;
      while i < |items|
        invariant 0 <= i <= |items| && store == old(store)
        invariant plan ==
          ConsiderAll(world, connection, currentHashes, Work(toInstall, toUninstall, kept, failed, files), items[i..])
        invariant Reported(group) == base + kept
        invariant forall g :: g != group ==> Reported(g) == old(Reported(g))
      {
        ConsiderNext(world, connection, currentHashes, Work(toInstall, toUninstall, kept, failed, files), items, i);
        toInstall, toUninstall, kept :=
          ConsiderCertificate(group, connection, currentHashes, items[i], toInstall, toUninstall, base, kept);
        i := i + 1;
      }
      ConsiderNone(world, connection, currentHashes, Work(toInstall, toUninstall, kept, failed, files), items[i..]);
    }

    /** What the world answers to the deletion of one certificate. */
    method UninstallCertificateHandler(hash: Bytes)
      modifies this`store, this`failed
      ensures store == if world.deletes(hash) then Deleted(old(store), hash) else old(store)
      ensures failed == if world.deletes(hash) then old(failed) else old(failed) + {UNINSTALL_CERTIFICATE}
      ensures forall x :: Has(store, x) <==> Has(old(store), x) && !(world.deletes(hash) && SameName(hash, x))
    {
      hide Has, SameName, Deleted;
      if world.deletes(hash) {
        forall x
          ensures Has(Deleted(store, hash), x) <==> Has(store, x) && !SameName(hash, x)
        {
          DeletedHas(store, hash, x);
        }
        store := Deleted(store, hash);
      } else {
        failed := failed + {UNINSTALL_CERTIFICATE};
      }
    }

    method InstallCertificateHandler(hash: Bytes, certificate: Bytes) returns (ok: bool)
      modifies this`store, this`failed
      ensures ok <==> world.adds(hash, certificate)
      ensures store == if ok then Added(old(store), hash, certificate) else old(store)
      ensures failed == if ok then old(failed) else old(failed) + {INSTALL_CERTIFICATE}
      ensures forall x :: Has(store, x) <==> Has(old(store), x) || (ok && SameName(hash, x))
    {
      hide Has, SameName, Added;
      ok := world.adds(hash, certificate);
      if ok {
        forall x
          ensures Has(Added(store, hash, certificate), x) <==> Has(store, x) || SameName(hash, x)
        {
          AddedHas(store, hash, certificate, x);
        }
        store := Added(store, hash, certificate);
      } else {
        failed := failed + {INSTALL_CERTIFICATE};
      }
    }

    method UninstallCertificates(group: Bytes, certificatesToUninstall: seq<Bytes>)
      modifies this`store, this`failed
      ensures StateOf(group) == UninstallAll(world, old(StateOf(group)), certificatesToUninstall)
      ensures forall g :: Reported(g) == old(Reported(g))
    {
      hide UninstallAll, Deleted;
      ghost var s := StateOf(group);
      var i := 0;
      assert certificatesToUninstall[0..] == certificatesToUninstall;
      while i < |certificatesToUninstall|
        invariant 0 <= i <= |certificatesToUninstall|
        invariant UninstallAll(world, StateOf(group), certificatesToUninstall[i..]) ==
          UninstallAll(world, s, certificatesToUninstall)
      {
        UninstallNext(world, StateOf(group), certificatesToUninstall, i);
        UninstallCertificateHandler(certificatesToUninstall[i]);
        i := i + 1;
      }
      UninstallNone(world, StateOf(group), certificatesToUninstall[i..]);
    }

    /** One turn of the loop over the certificates to install. */
    method InstallOne(group: Bytes, f: CertificateFile)
      requires world.At(f) in files
      modifies this
      ensures StateOf(group) == Install(world, old(StateOf(group)), f)
      ensures forall g :: g != group ==> Reported(g) == old(Reported(g))
    {
      hide Added;
      var ok := InstallCertificateHandler(f.thumbPrint, files[world.At(f)]);
      assert forall g :: Reported(g) == old(Reported(g));
      if ok {
        Report(group, f.thumbPrint);
      }
      label Reported:
      files := files - {world.At(f)};
      assert forall g :: Reported(g) == old@Reported(Reported(g));
    }

    method InstallCertificates(group: Bytes, certificatesToInstall: seq<CertificateFile>) returns (threw: bool)
      modifies this
      ensures (StateOf(group), threw) == InstallAll(world, old(StateOf(group)), certificatesToInstall)
      ensures forall g :: g != group ==> Reported(g) == old(Reported(g))
    {
      hide InstallAll, Install;
      ghost var s := StateOf(group);
      var i := 0;
      assert certificatesToInstall[0..] == certificatesToInstall;
      while i < |certificatesToInstall|
        invariant 0 <= i <= |certificatesToInstall|
        invariant InstallAll(world, StateOf(group), certificatesToInstall[i..]) ==
          InstallAll(world, s, certificatesToInstall)
        invariant forall g :: g != group ==> Reported(g) == old(Reported(g))
      {
        InstallNext(world, StateOf(group), certificatesToInstall, i);
        if world.At(certificatesToInstall[i]) !in files {
          return true;
        }
        InstallOne(group, certificatesToInstall[i]);
        i := i + 1;
      }
      InstallNone(world, StateOf(group), certificatesToInstall[i..]);
      threw := false;
    }

    /** The two work lists are built first and then carried out; what other groups report stays as it is. */
    method ModifyCertificatesHandler(group: Bytes, desired: Value, connection: Option<Bytes>) returns (threw: bool)
      modifies this
      ensures (StateOf(group), threw) == Modify(world, group, desired, connection, old(StateOf(group)))
      ensures forall g :: g != group ==> Reported(g) == old(Reported(g))
    {
      hide Plan, UninstallAll, InstallAll;
      var certificatesToInstall, certificatesToUninstall := BuildLists(group, desired, connection);
      UninstallCertificates(group, certificatesToUninstall);
      threw := InstallCertificates(group, certificatesToInstall);
    }
  }

  // ---- how the loops follow the functions

  lemma ConsiderNext(world: World, connection: Option<Bytes>, hashes: seq<Bytes>, w: Work, items: seq<Item>, i: nat)
    requires i < |items|
    ensures ConsiderAll(world, connection, hashes, w, items[i..]) ==
      ConsiderAll(world, connection, hashes, Consider(world, connection, hashes, w, items[i]), items[i + 1..])
  {
    hide Consider;
    assert items[i..][1..] == items[i + 1..];
  }

  lemma ConsiderNone(world: World, connection: Option<Bytes>, hashes: seq<Bytes>, w: Work, items: seq<Item>)
    requires items == []
    ensures ConsiderAll(world, connection, hashes, w, items) == w
  {
  }

  lemma UninstallNext(world: World, s: State, hashes: seq<Bytes>, i: nat)
    requires i < |hashes|
    ensures UninstallAll(world, s, hashes[i..]) ==
      UninstallAll(world,
        if world.deletes(hashes[i]) then s.(store := Deleted(s.store, hashes[i]))
        else s.(failed := s.failed + {UNINSTALL_CERTIFICATE}),
        hashes[i + 1..])
  {
    hide Deleted;
    assert hashes[i..][1..] == hashes[i + 1..];
  }

  lemma UninstallNone(world: World, s: State, hashes: seq<Bytes>)
    requires hashes == []
    ensures UninstallAll(world, s, hashes) == s
  {
  }

  lemma InstallNext(world: World, s: State, certificates: seq<CertificateFile>, i: nat)
    requires i < |certificates|
    ensures InstallAll(world, s, certificates[i..]) ==
      if world.At(certificates[i]) !in s.files then (s, true)
      else InstallAll(world, Install(world, s, certificates[i]), certificates[i + 1..])
  {
    hide Install;
    assert certificates[i..][1..] == certificates[i + 1..];
  }

  lemma InstallNone(world: World, s: State, certificates: seq<CertificateFile>)
    requires certificates == []
    ensures InstallAll(world, s, certificates) == (s, false)
  {
  }
}
