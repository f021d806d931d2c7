/** The identifier the inventory gives each disk: its by-id link if there is one, else its by-path
    link if no other disk shares the bus path, else its device path.

    The file system is an oracle: which paths exist, where links lead, what the by-id directory
    holds. A host with an appliance device reports that device alone.
 */
module DiskIds {
  import opened Common

  const BY_ID := "/dev/disk/by-id"
  const BY_PATH := "/dev/disk/by-path"
  const UNKNOWN := "unknown"

  datatype DirEntry = DirEntry(name: string, symlink: bool)

  /** `resolve` is the absolute path a link leads to, if it can be evaluated; `clean` is how a name with
      separators or dot entries in it joins to a directory. */
  datatype FileSystem = FileSystem(
    present: string -> bool, resolve: string -> Option<string>, byId: Option<seq<DirEntry>>,
    clean: (string, string) -> string)

  datatype Disk = Disk(name: string, busPath: string, hidden: bool, multipath: bool, lvm: bool, appliance: bool)

  datatype Record = Record(name: string, path: string, byId: string, byPath: string, id: string)

  predicate HasPrefix(s: string, prefix: string) {
    prefix <= s
  }

  /** A name that joins to a directory as it stands: no separator, no dot entry. */
  predicate Plain(name: string) {
    '/' !in name && name != "." && name != ".."
  }

  function Join(fs: FileSystem, dir: string, name: string): string {
    if !Plain(name) then fs.clean(dir, name) else if name == "" then dir else dir + "/" + name
  }

  /** A plain name stands after a separator. */
  lemma JoinIs(fs: FileSystem, dir: string, name: string)
    requires '/' !in name && name != "." && name != ".." && name != ""
    ensures Join(fs, dir, name) == dir + "/" + name
  {
  }

  lemma JoinInjective(fs: FileSystem, dir: string, a: string, b: string)
    requires Plain(a) && Plain(b) && Join(fs, dir, a) == Join(fs, dir, b)
    ensures a == b
  {
    if a != "" && b != "" {
      assert a == Join(fs, dir, a)[|dir| + 1..];
      assert b == Join(fs, dir, b)[|dir| + 1..];
    }
  }

  // ----- by-id links -----

  predicate Matching(e: DirEntry) {
    (HasPrefix(e.name, "wwn-") || HasPrefix(e.name, "nvme-eui")) && e.symlink
  }

  ghost predicate PlainEntries(fs: FileSystem) {
    fs.byId.Some? ==> forall i | 0 <= i < |fs.byId.value| :: Plain(fs.byId.value[i].name)
  }

  /** The link found for a disk path leads to that path, and lies in the by-id directory unless its name
      leads out of it. */
  ghost predicate LinksLead(fs: FileSystem, links: map<string, string>) {
    forall p | p in links && links[p] != "" ::
      fs.resolve(links[p]) == Some(p) && (PlainEntries(fs) ==> HasPrefix(links[p], BY_ID))
  }

  /** The link of a path: that of the last matching entry that leads to it. An entry that cannot be
      resolved counts as an empty link that leads to the empty path. */
  ghost function LinkFor(fs: FileSystem, entries: seq<DirEntry>, path: string): string {
    if entries == [] then ""
    else
      var last := |entries| - 1;
      var link := Join(fs, BY_ID, entries[last].name);
      var target := fs.resolve(link);
      if !Matching(entries[last]) then LinkFor(fs, entries[..last], path)
      else if target == Some(path) then link
      else if target.None? && path == "" then ""
      else LinkFor(fs, entries[..last], path)
  }

  /** An entry counts if it is a symbolic link whose name starts with "wwn-" or "nvme-eui". */
  ghost predicate Counts(fs: FileSystem, e: DirEntry, path: string) {
    && e.symlink && ("wwn-" <= e.name || "nvme-eui" <= e.name)
    && fs.resolve(Join(fs, "/dev/disk/by-id", e.name)) == Some(path)
  }

  /** The last entry that counts for a path. */
  ghost predicate LastCounting(fs: FileSystem, entries: seq<DirEntry>, path: string, i: nat) {
    i < |entries| && Counts(fs, entries[i], path) && forall j | i < j < |entries| :: !Counts(fs, entries[j], path)
  }

  lemma LinkForStep(fs: FileSystem, entries: seq<DirEntry>, path: string)
    requires path != "" && entries != []
    ensures var n := |entries| - 1;
            LinkFor(fs, entries, path)
            == if Counts(fs, entries[n], path) then Join(fs, "/dev/disk/by-id", entries[n].name)
               else LinkFor(fs, entries[..n], path)
  {
    hide Join;
  }

  lemma {:induction false} NoLinkFor(fs: FileSystem, entries: seq<DirEntry>, path: string)
    requires path != "" && forall i: nat | i < |entries| :: !Counts(fs, entries[i], path)
    ensures LinkFor(fs, entries, path) == ""
  {
    hide Counts, Join;
    if entries != [] {
      LinkForStep(fs, entries, path);
      NoLinkFor(fs, entries[..|entries| - 1], path);
    }
  }

  /** A non-empty path has the link of the last entry that counts for it; `NoLinkFor`: none if no entry
      does. */
  lemma {:induction false} LinkForIs(fs: FileSystem, entries: seq<DirEntry>, path: string, i: nat)
    requires path != "" && LastCounting(fs, entries, path, i)
    ensures LinkFor(fs, entries, path) == Join(fs, "/dev/disk/by-id", entries[i].name)
  {
    hide Counts, Join;
    var n := |entries| - 1;
    LinkForStep(fs, entries, path);
    if i < n {
      assert forall j | 0 <= j < n :: entries[..n][j] == entries[j];
      LinkForIs(fs, entries[..n], path, i);
    }
  }

  ghost function LinkOf(fs: FileSystem, path: string): string {
    if fs.byId.Some? then LinkFor(fs, fs.byId.value, path) else ""
  }

  method CollectLinks(fs: FileSystem) returns (links: map<string, string>)
    ensures LinksLead(fs, links)
    ensures forall p :: Lookup(links, p) == LinkOf(fs, p)
  {
    links := map[];
    if fs.byId.None? {
      return;
    }
    var entries := fs.byId.value;
    for k := 0 to |entries|
      invariant LinksLead(fs, links)
      invariant forall p :: Lookup(links, p) == LinkFor(fs, entries[..k], p)
    {
      assert entries[..k + 1][..k] == entries[..k];
      if Matching(entries[k]) {
        var diskId := Join(fs, BY_ID, entries[k].name);
        var target := fs.resolve(diskId);
        links := match target
          case None => links["" := ""]
          case Some(path) => links[path := diskId];
      }
    }
    assert entries[..|entries|] == entries;
  }

  function Lookup(links: map<string, string>, path: string): string {
    if path in links then links[path] else ""
  }

  /** Different paths have different links. */
  lemma LinksInjective(fs: FileSystem, links: map<string, string>, p: string, q: string)
    requires LinksLead(fs, links) && Lookup(links, p) == Lookup(links, q) != ""
    ensures p == q
  {
  }

  // ----- paths -----

  function PathOf(fs: FileSystem, disk: Disk): string {
    var path := Join(fs, "/dev", disk.name);
    if fs.present(path) then path
    else
      var target := fs.resolve(Join(fs, BY_PATH, disk.busPath));
      if target.Some? then target.value else ""
  }

  /** A disk's own device node, if it is there, else where its by-path link leads, else nothing. */
  lemma PathIs(fs: FileSystem, disk: Disk)
    ensures fs.present(Join(fs, "/dev", disk.name)) ==> PathOf(fs, disk) == Join(fs, "/dev", disk.name)
    ensures !fs.present(Join(fs, "/dev", disk.name)) ==>
              match fs.resolve(Join(fs, "/dev/disk/by-path", disk.busPath))
              case Some(path) => PathOf(fs, disk) == path
              case None => PathOf(fs, disk) == ""
  {
  }

  ghost predicate SharesBusPath(disks: seq<Disk>, index: nat)
    requires index < |disks|
  {
    exists i :: 0 <= i < |disks| && i != index && disks[i].busPath == disks[index].busPath
  }

  /** The by-path link of a disk, unless its bus path is unknown, shared or not linked. */
  method BusPath(fs: FileSystem, disks: seq<Disk>, index: nat) returns (byPath: string)
    requires index < |disks|
    ensures byPath == ByPathOf(fs, disks, index)
  {
    var busPath := disks[index].busPath;
    if busPath == UNKNOWN {
      return "";
    }
    for i := 0 to |disks|
      invariant forall j | 0 <= j < i && j != index :: disks[j].busPath != busPath
    {
      if i == index || disks[i].busPath != busPath {
        continue;
      }
      return "";
    }
    var path := Join(fs, BY_PATH, busPath);
    return if fs.present(path) then path else "";
  }

  ghost function ByPathOf(fs: FileSystem, disks: seq<Disk>, index: nat): string
    requires index < |disks|
  {
    var path := Join(fs, BY_PATH, disks[index].busPath);
    if disks[index].busPath == UNKNOWN || SharesBusPath(disks, index) || !fs.present(path) then "" else path
  }

  /** A disk has a by-path link exactly if its bus path is known, no other disk has it, and it is linked. */
  lemma ByPathIff(fs: FileSystem, disks: seq<Disk>, index: nat)
    requires index < |disks| && disks[index].busPath != "" && Plain(disks[index].busPath)
    ensures var link := "/dev/disk/by-path" + "/" + disks[index].busPath;
            && (ByPathOf(fs, disks, index) == link || ByPathOf(fs, disks, index) == "")
            && (ByPathOf(fs, disks, index) == link <==>
                  && disks[index].busPath != "unknown" && fs.present(link)
                  && forall i | 0 <= i < |disks| && i != index :: disks[i].busPath != disks[index].busPath)
  {
  }

  lemma ByPathInjective(fs: FileSystem, disks: seq<Disk>, i: nat, j: nat)
    requires i < |disks| && j < |disks| && i != j
    requires Plain(disks[i].busPath) && Plain(disks[j].busPath)
    requires ByPathOf(fs, disks, i) != ""
    ensures ByPathOf(fs, disks, i) != ByPathOf(fs, disks, j)
  {
    if ByPathOf(fs, disks, i) == ByPathOf(fs, disks, j) {
      JoinInjective(fs, BY_PATH, disks[i].busPath, disks[j].busPath);
    }
  }

  // ----- the list of disks -----

  /** Hidden devices, device-mapper devices that are neither multipath nor LVM, loop and zram devices
      are not returned. */
  predicate ShouldReturn(d: Disk) {
    !(d.hidden
      || (HasPrefix(d.name, "dm-") && !(d.multipath || d.lvm))
      || HasPrefix(d.name, "loop") || HasPrefix(d.name, "zram"))
  }

  ghost function RecordOf(fs: FileSystem, links: map<string, string>, disks: seq<Disk>, i: nat): Record
    requires i < |disks|
  {
    var path, byPath := PathOf(fs, disks[i]), ByPathOf(fs, disks, i);
    var byId := Lookup(links, path);
    Record(disks[i].name, path, byId, byPath, if byId != "" then byId else if byPath != "" then byPath else path)
  }

  ghost predicate PlainBusPaths(disks: seq<Disk>) {
    forall i | 0 <= i < |disks| :: Plain(disks[i].busPath)
  }

  /** A disk the inventory reports: visible, neither loop nor zram device, and if it is a device-mapper
      device, a multipath or LVM one. */
  ghost predicate Reported(d: Disk) {
    && !d.hidden && !("loop" <= d.name) && !("zram" <= d.name)
    && ("dm-" <= d.name ==> d.multipath || d.lvm)
  }

  lemma ReportedIff(d: Disk)
    ensures ShouldReturn(d) <==> Reported(d)
  {
  }

  /** The disks to be returned, in order: record k is that of disk `from[k]`. */
  ghost predicate Listed(fs: FileSystem, disks: seq<Disk>, records: seq<Record>, links: map<string, string>,
                         from: seq<nat>)
  {
    && |from| == |records|
    && (forall p :: Lookup(links, p) == LinkOf(fs, p))
    && (forall k | 0 <= k < |from| :: from[k] < |disks| && Reported(disks[from[k]]))
    && (forall k, l | 0 <= k < l < |from| :: from[k] < from[l])
    && (forall i | 0 <= i < |disks| && Reported(disks[i]) :: i in from)
    && (forall k | 0 <= k < |from| :: records[k] == RecordOf(fs, links, disks, from[k]))
  }

  /** Two records have one identifier exactly if nothing tells the disks apart. */
  ghost predicate IdsTell(records: seq<Record>) {
    forall k, l | 0 <= k < l < |records| :: records[k].id == records[l].id <==> Confused(records[k], records[l])
  }

  ghost predicate Plainly(fs: FileSystem, disks: seq<Disk>, records: seq<Record>) {
    PlainEntries(fs) && PlainBusPaths(disks) && forall k | 0 <= k < |records| :: Outside(records[k].path)
  }

  method ListDisks(fs: FileSystem, disks: seq<Disk>)
    returns (records: seq<Record>, ghost links: map<string, string>, ghost from: seq<nat>)
    ensures Listed(fs, disks, records, links, from)
    ensures Plainly(fs, disks, records) ==> IdsTell(records)
  {
    hide PathOf, ByPathOf, ShouldReturn, Reported, Plain, LinkOf, LinksLead, Outside, Confused, Lookup;
    var found := CollectLinks(fs);
    links, records, from := found, [], [];
    for i := 0 to |disks|
      invariant |from| == |records|
      invariant forall k | 0 <= k < |from| :: from[k] < i && Reported(disks[from[k]])
      invariant forall k, l | 0 <= k < l < |from| :: from[k] < from[l]
      invariant forall j | 0 <= j < i && Reported(disks[j]) :: j in from
      invariant forall k | 0 <= k < |from| :: records[k] == RecordOf(fs, links, disks, from[k])
    {
      ReportedIff(disks[i]);
      if !ShouldReturn(disks[i]) {
        continue;
      }
      var path := PathOf(fs, disks[i]);
      var byId := Lookup(found, path);
      var byPath := BusPath(fs, disks, i);
      var id := path;
      if byId != "" {
        id := byId;
      } else if byPath != "" {
        id := byPath;
      }
      records, from := records + [Record(disks[i].name, path, byId, byPath, id)], from + [i];
    }
    if Plainly(fs, disks, records) {
      forall k, l | 0 <= k < l < |records|
        ensures records[k].id == records[l].id <==> Confused(records[k], records[l])
      {
        SameIdIff(fs, links, disks, from[k], from[l]);
      }
    }
  }

  // ----- appliance devices -----

  /** The record of an appliance device: its bus path may be shared, and it gets no identifier. */
  ghost function ApplianceRecord(fs: FileSystem, disk: Disk): Record {
    var path, byPath := PathOf(fs, disk), Join(fs, BY_PATH, disk.busPath);
    Record(disk.name, path, LinkOf(fs, path),
           if disk.busPath != UNKNOWN && fs.present(byPath) then byPath else "", "")
  }

  lemma ApplianceIs(fs: FileSystem, disk: Disk)
    requires disk.busPath != "" && Plain(disk.busPath)
    ensures var r, link := ApplianceRecord(fs, disk), "/dev/disk/by-path" + "/" + disk.busPath;
            && r.name == disk.name && r.path == PathOf(fs, disk) && r.byId == LinkOf(fs, r.path) && r.id == ""
            && (disk.busPath != "unknown" && fs.present(link) ==> r.byPath == link)
            && (disk.busPath == "unknown" || !fs.present(link) ==> r.byPath == "")
  {
  }

  ghost predicate FirstAppliance(disks: seq<Disk>, i: nat) {
    i < |disks| && disks[i].appliance && forall j | 0 <= j < i :: !disks[j].appliance
  }

  /** An appliance device is reported alone; otherwise the disks are listed. */
  method GetDisks(fs: FileSystem, disks: seq<Disk>)
    returns (records: seq<Record>, ghost links: map<string, string>, ghost from: seq<nat>)
    ensures forall i: nat | FirstAppliance(disks, i) :: records == [ApplianceRecord(fs, disks[i])]
    ensures (forall i | 0 <= i < |disks| :: !disks[i].appliance) ==> Listed(fs, disks, records, links, from)
    ensures Plainly(fs, disks, records) ==> IdsTell(records)
  {
    hide PathOf, LinkFor, LinksLead, Listed, Confused;
    links, from := map[], [];
    for i := 0 to |disks|
      invariant forall j | 0 <= j < i :: !disks[j].appliance
    {
      if disks[i].appliance {
        var path, byPath := PathOf(fs, disks[i]), Join(fs, BY_PATH, disks[i].busPath);
        var found := CollectLinks(fs);
        var linked := disks[i].busPath != UNKNOWN && fs.present(byPath);
        records := [Record(disks[i].name, path, Lookup(found, path), if linked then byPath else "", "")];
        return;
      }
    }
    records, links, from := ListDisks(fs, disks);
  }

  // ----- uniqueness -----

  /** A device path does not lie in the directories of links. */
  predicate Outside(path: string) {
    !HasPrefix(path, BY_ID) && !HasPrefix(path, BY_PATH)
  }

  /** Two disks with one device path and nothing to tell them apart. */
  predicate Confused(a: Record, b: Record) {
    a.path == b.path && (a.byId != "" || (a.byPath == "" && b.byPath == ""))
  }

  lemma DirectoriesDiffer(s: string)
    ensures !(HasPrefix(s, BY_ID) && HasPrefix(s, BY_PATH))
  {
    if HasPrefix(s, BY_ID) { assert s[13] == 'i'; }
    if HasPrefix(s, BY_PATH) { assert s[13] == 'p'; }
  }

  lemma ByPathHasPrefix(fs: FileSystem, disks: seq<Disk>, i: nat)
    requires i < |disks| && Plain(disks[i].busPath)
    ensures ByPathOf(fs, disks, i) != "" ==> HasPrefix(ByPathOf(fs, disks, i), BY_PATH)
  {
  }

  /** Whichever mix of by-id link, by-path link and device path is used, two disks get the same
      identifier exactly when they have the same device path and nothing tells them apart; in
      particular disks with different paths get different identifiers. */
  lemma SameIdIff(fs: FileSystem, links: map<string, string>, disks: seq<Disk>, i: nat, j: nat)
    requires LinksLead(fs, links) && PlainEntries(fs) && PlainBusPaths(disks) && i < |disks| && j < |disks| && i != j
    requires Outside(PathOf(fs, disks[i])) && Outside(PathOf(fs, disks[j]))
    ensures var a, b := RecordOf(fs, links, disks, i), RecordOf(fs, links, disks, j);
            && (a.id == b.id <==> Confused(a, b))
            && (a.path != b.path ==> a.id != b.id)
  {
    hide PathOf, ByPathOf;
    var a, b := RecordOf(fs, links, disks, i), RecordOf(fs, links, disks, j);
    DirectoriesDiffer(a.id);
    DirectoriesDiffer(b.id);
    ByPathHasPrefix(fs, disks, i);
    ByPathHasPrefix(fs, disks, j);
    if a.byId != "" && b.byId != "" && a.byId == b.byId { LinksInjective(fs, links, a.path, b.path); }
    if a.byPath != "" { ByPathInjective(fs, disks, i, j); }
  }

  /** Identifiers are not always unique: two disks with one bus path that leads to one device, and no
      device node of their own, share it. */
  lemma SharedBusPathClashes()
    ensures var fs := FileSystem(_ => false, _ => Some("/dev/sda"), None, (dir, name) => dir);
            var disks := [Disk("a", "pci-0", false, false, false, false), Disk("b", "pci-0", false, false, false,
                                                                               false)];
            RecordOf(fs, map[], disks, 0).id == RecordOf(fs, map[], disks, 1).id
  {
    var disks := [Disk("a", "pci-0", false, false, false, false), Disk("b", "pci-0", false, false, false, false)];
    assert disks[1].busPath == disks[0].busPath;
    assert SharesBusPath(disks, 0) && SharesBusPath(disks, 1);
  }
}
