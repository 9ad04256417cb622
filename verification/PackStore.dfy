/**
 The pack store and the active archive it switches: the state of
 content_archive.c and pack_store.c, with every operation that changes it. A
 call that can fail for outside reasons takes a flag that says whether it does.
 */
module PackStore {
  import opened Bytes
  import opened ArchiveFormat
  import opened FileStore
  import opened Options

  const CACHE_ITEMS := 32

  // s_ca: which archive is being served. A file archive keeps its file open.
  datatype Active = NoArchive | Flash(count: nat) | FromFile(data: seq<byte>, count: nat)

  datatype Error = NotFound | Invalid | BadArgument | Io

  datatype Result<T> = Ok(value: T) | Err(error: Error)

  ghost predicate Extends(a: map<nat, Active>, b: map<nat, Active>) {
    forall g :: g in a ==> g in b && b[g] == a[g]
  }

  // A file archive is the installed file of its name.
  ghost predicate InstalledIn(d: Dir, ca: Active, name: string) {
    ca.FromFile? ==> Lookup(d, PathFor(name)) == Some(ca.data)
  }

  // Which calls of pack_store_finish_upload fail.
  datatype FinishFaults = FinishFaults(close: bool, probe: bool, lock: bool, unlinkBackup: bool, renameOld: bool,
                                       renameNew: bool, rollback: bool, unlinkLast: bool, unlinkTemp: bool)

  class Store {
    // The articles of the archive in the flash partitions, if it validates.
    const flash: Option<nat>

    var files: Dir
    var ca: Active
    var generation: nat
    var activeName: string
    var builtinArticles: nat

    // The metadata cache.
    var metaValid: bool
    var metaCount: int
    var metaArticles: nat
    var metadata: seq<Item>

    // How often an archive has been put in service: the generation without its
    // wrap at 2^32. And every archive served so far, by that number.
    ghost var loads: nat
    ghost var served: map<nat, Active>
    // The directory after every operation on it.
    ghost var trace: seq<Dir>

    // No change of the directory is missing from the trace.
    ghost predicate Traced()
      reads this
    {
      |trace| > 0 && trace[|trace| - 1] == files
    }

    ghost predicate Valid()
      reads this
    {
      && Traced()
      && (metaValid ==> metaCount == |metadata| <= CACHE_ITEMS && Scan(files) == Some(Listing(metadata, metaArticles)))
      && generation == Wrap32(loads)
      && (!ca.NoArchive? ==> loads in served && served[loads] == ca)
      && (forall g :: g in served ==> g <= loads)
      && (ca.Flash? ==> flash == Some(ca.count))
      && (ca.FromFile? ==> PackOk(ca.data).Some? && PackOk(ca.data).value.index.count == ca.count)
    }

    // A served file archive is the installed file of its name.
    ghost predicate ActiveIsInstalled()
      reads this
    {
      InstalledIn(files, ca, activeName)
    }

    constructor (flash: Option<nat>, files: Dir)
      ensures Valid() && ActiveIsInstalled() && this.flash == flash && this.files == files
      ensures ca.NoArchive? && loads == 0 && served == map[] && !metaValid
    {
      this.flash, this.files := flash, files;
      ca, generation, activeName, builtinArticles := NoArchive, 0, "", 0;
      metaValid, metaCount, metaArticles, metadata := false, 0, 0, [];
      loads, served, trace := 0, map[], [files];
    }

    // pack_store_init on a mounted directory: reclaim a staging file that a power
    // loss left behind and select the flash archive.
    method Init(unlinkFault: bool, flashFault: bool)
      requires Valid()
      modifies this
      ensures Valid() && ActiveIsInstalled() && Extends(old(served), served)
      ensures activeName == BUILTIN && !metaValid
      ensures ca == if flash.None? || flashFault then NoArchive else Flash(flash.value)
      ensures builtinArticles == if ca.Flash? then ca.count else 0
      ensures loads == old(loads) + if ca.Flash? then 1 else 0
      ensures Scan(files) == Scan(old(files)) && (!unlinkFault ==> Lookup(files, TEMP).None?)
      ensures forall n :: !SameName(TEMP, n) ==> Lookup(files, n) == Lookup(old(files), n)
    {
      hide Scan, PackOk, Lookup, Fold, Delete, SameName;
      metaValid := false;
      ScanDelete(files, TEMP);
      SameNameLaws(TEMP, TEMP, TEMP);
      UnlinkTempFrame(unlinkFault);
      RevertToFlash(flashFault);
      activeName := BUILTIN;
      builtinArticles := if ca.Flash? then ca.count else 0;
    }

    // ---- the active archive ----

    // ca_init, which ca_revert_to_flash runs after closing the open file.
    method RevertToFlash(fault: bool)
      requires Valid()
      modifies this`ca, this`generation, this`loads, this`served
      ensures Valid() && Extends(old(served), served)
      ensures ca == if flash.None? || fault then NoArchive else Flash(flash.value)
      ensures loads == old(loads) + if ca.Flash? then 1 else 0
    {
      hide Scan, PackOk;
      ca := NoArchive;
      if flash.None? || fault {
        return;
      }
      ca := Flash(flash.value);
      NextGeneration(loads);
      generation, loads := Wrap32(generation + 1), loads + 1;
      served := served[loads := ca];
    }

    // ca_load_pack: on failure, nothing changes.
    method LoadPack(path: string, fault: bool) returns (r: Result<()>)
      requires Valid()
      modifies this`ca, this`generation, this`loads, this`served
      ensures Valid() && Extends(old(served), served)
      ensures r.Ok? <==> !fault && Lookup(files, path).Some? && PackOk(Lookup(files, path).value).Some?
      ensures r.Ok? ==> ca.FromFile? && Lookup(files, path) == Some(ca.data)
      ensures r.Ok? ==> loads == old(loads) + 1 && generation == Wrap32(old(generation) + 1)
      ensures r.Err? ==> ca == old(ca) && generation == old(generation) && loads == old(loads) && served == old(served)
    {
      hide PackOk, Scan, Lookup;
      var f := Lookup(files, path);
      if f.None? {
        return Err(NotFound);
      }
      if fault {
        return Err(Io);
      }
      var probe := PackOk(f.value);
      if probe.None? {
        return Err(Invalid);
      }
      ca := FromFile(f.value, probe.value.index.count);
      NextGeneration(loads);
      generation, loads := Wrap32(generation + 1), loads + 1;
      served := served[loads := ca];
      r := Ok(());
    }

    // ---- opening a library ----

    // What a successful open serves: the installed file, or for the built-in
    // name the flash archive when there is no installed file or it did not load.
    ghost predicate Serves(name: string)
      reads this
    {
      var id := Resolve(name);
      (ca.FromFile? && SameName(activeName, id) && Lookup(files, PathFor(id)) == Some(ca.data))
      || (IsBuiltin(name) && ca.Flash? && activeName == BUILTIN)
    }

    method OpenForRead(name: string, loadFault: bool, flashFault: bool) returns (r: Result<()>)
      requires Valid()
      modifies this`ca, this`generation, this`loads, this`served, this`activeName
      ensures Valid() && Extends(old(served), served)
      ensures old(ActiveIsInstalled()) ==> ActiveIsInstalled() && (r.Ok? ==> Serves(name))
      ensures r.Ok? ==> !ca.NoArchive? && activeName == Resolve(name)
      ensures r.Err? ==> activeName == old(activeName) && (IsBuiltin(name) ==> ca.NoArchive?)
      ensures old(loads) <= loads <= old(loads) + 1
      // A pack that is already open is not opened again.
      ensures (old(activeName) == Resolve(name) && old(ca.FromFile?) && Lookup(files, PathFor(Resolve(name))).Some?
               && (IsBuiltin(name) || SafeName(name))) ==>
                r.Ok? && ca == old(ca) && loads == old(loads)
      ensures var f := Lookup(files, PathFor(Resolve(name)));
              && (f.Some? && PackOk(f.value).Some? && !loadFault && (IsBuiltin(name) || SafeName(name)) ==> r.Ok? && ca.FromFile?)
              && (!IsBuiltin(name) && (f.None? || (PackOk(f.value).None? && old(ActiveIsInstalled()))) ==> r.Err?)
              && (IsBuiltin(name) && flash.Some? && !flashFault ==> r.Ok?)
      ensures r.Err? && !IsBuiltin(name) ==>
                ca == old(ca) && loads == old(loads) && activeName == old(activeName)
    {
      hide PackOk, Scan, Lookup, SafeName, Fold;
      var builtin := IsBuiltin(name);
      var id := Resolve(name);
      if !builtin && !SafeName(id) {
        return Err(BadArgument);
      }
      var path := PathFor(id);
      if Lookup(files, path).Some? {
        if activeName == id && ca.FromFile? {
          return Ok(());
        }
        var loaded := LoadPack(path, loadFault);
        if loaded.Ok? {
          activeName := id;
          return Ok(());
        }
        if !builtin {
          return loaded;
        }
      } else if !builtin {
        return Err(NotFound);
      }
      if activeName == BUILTIN && ca.Flash? {
        return Ok(());
      }
      RevertToFlash(flashFault);
      if ca.NoArchive? {
        return Err(Invalid);
      }
      activeName := BUILTIN;
      r := Ok(());
    }

    // ---- listing the installed packs ----

    // scan_metadata: always to the end, keeping the first cap items.
    method ScanMetadata(cap: nat, fault: bool) returns (count: int, items: seq<Item>, articles: nat)
      ensures count == -1 <==> fault || Scan(files).None?
      ensures count != -1 ==> count == |Scan(files).value.items| && articles == Scan(files).value.articles
      ensures count != -1 ==> items == Take(Scan(files).value.items, cap)
    {
      hide Scan, ListItem;
      count, items, articles := 0, [], 0;
      if fault {
        return -1, [], 0;
      }
      ScanNothing(files);
      for k := 0 to |files|
        invariant Scan(files[..k]).Some? && 0 <= count
        invariant var l := Scan(files[..k]).value; count == |l.items| && articles == l.articles && items == Take(l.items, cap)
      {
        ScanStep(files, k);
        var it := ListItem(files[k]);
        if it.Some? {
          if U32 - 1 - articles < it.value.articles {
            ScanFails(files, k + 1);
            return -1, [], 0;
          }
          if count < cap {
            items := items + [it.value];
          }
          articles := articles + it.value.articles;
          count := count + 1;
        }
      }
      assert files[..|files|] == files;
    }

    // metadata_refresh_locked
    method MetadataRefresh(fault: bool) returns (count: int)
      requires Valid()
      modifies this`metaValid, this`metaCount, this`metaArticles, this`metadata
      ensures Valid() && count == metaCount
      ensures count == -1 ==> !metaValid && (fault || Scan(files).None?)
      ensures count != -1 ==> Scan(files).Some? && count == |Scan(files).value.items|
      ensures count != -1 ==> metaArticles == Scan(files).value.articles
      ensures metaValid <==> 0 <= count <= CACHE_ITEMS
      ensures !fault && Scan(files).Some? ==> count != -1
      ensures !old(metaValid) && fault ==> count == -1
    {
      hide Scan, PackOk, Lookup;
      if metaValid {
        return metaCount;
      }
      metaCount, metadata, metaArticles := ScanMetadata(CACHE_ITEMS, fault);
      metaValid := 0 <= metaCount <= CACHE_ITEMS;
      count := metaCount;
      if metaValid {
        var l := Scan(files).value;
        assert l == Listing(l.items, l.articles);
      }
    }

    // pack_store_rescan
    method Rescan(fault: bool) returns (ok: bool)
      requires Valid()
      modifies this`metaValid, this`metaCount, this`metaArticles, this`metadata
      ensures Valid() && (ok <==> !fault && Scan(files).Some?)
    {
      metaValid := false;
      var count := MetadataRefresh(fault);
      ok := count >= 0;
    }

    // pack_store_list: the first cap packs of an uncached scan, or -1.
    method List(cap: nat, fault: bool, fault2: bool) returns (n: int, items: seq<Item>)
      requires Valid()
      modifies this`metaValid, this`metaCount, this`metaArticles, this`metadata
      ensures Valid() && n >= -1
      ensures n >= 0 ==> Scan(files).Some? && items == Take(Scan(files).value.items, cap) && n == |items|
      ensures Scan(files).Some? && !fault && !fault2 ==> n >= 0
    {
      hide Scan, PackOk, Lookup;
      items := [];
      var count := MetadataRefresh(fault);
      if count >= 0 {
        if metaValid {
          items := Take(metadata, cap);
        } else {
          var articles;
          count, items, articles := ScanMetadata(cap, fault2);
        }
      }
      n := if count < 0 then -1 else if count < cap then count else cap;
    }

    // pack_store_list_all: every installed pack, however many, or -1.
    method ListAll(fault: bool, allocFault: bool, fault2: bool) returns (n: int, items: seq<Item>)
      requires Valid()
      modifies this`metaValid, this`metaCount, this`metaArticles, this`metadata
      ensures Valid() && n >= -1
      ensures n >= 0 ==> Scan(files).Some? && items == Scan(files).value.items && n == |items|
      ensures Scan(files).Some? && !fault && !allocFault && !fault2 ==> n >= 0
    {
      hide Scan, PackOk, Lookup;
      items := [];
      n := MetadataRefresh(fault);
      if n > 0 {
        if allocFault {
          return -1, [];
        } else if metaValid {
          items := metadata;
        } else {
          var found, articles;
          found, items, articles := ScanMetadata(n, fault2);
          if found < 0 || found > n {
            return -1, [];
          }
          n := found;
        }
      }
    }

    // pack_store_count
    method Count(fault: bool) returns (n: nat)
      requires Valid()
      modifies this`metaValid, this`metaCount, this`metaArticles, this`metadata
      ensures Valid()
      ensures Scan(files).None? ==> n == 0
      ensures Scan(files).Some? && !fault ==> n == |Scan(files).value.items|
    {
      var count := MetadataRefresh(fault);
      n := if count < 0 then 0 else count;
    }

    // pack_store_total_articles: the sum over every installed pack, however many,
    // and the built-in library, stopping at 2^32 - 1.
    method TotalArticles(fault: bool) returns (total: nat)
      requires Valid() && builtinArticles < U32
      modifies this`metaValid, this`metaCount, this`metaArticles, this`metadata
      ensures Valid() && builtinArticles <= total < U32
      ensures Scan(files).None? ==> total == builtinArticles
      ensures Scan(files).Some? && !fault ==> total == Smaller(U32 - 1, builtinArticles + Sum(Scan(files).value.items))
    {
      hide Scan, PackOk, Lookup, Sum;
      var count := MetadataRefresh(fault);
      var optional := if count < 0 then 0 else metaArticles;
      total := if U32 - 1 - builtinArticles < optional then U32 - 1 else builtinArticles + optional;
      if Scan(files).Some? {
        ScanSums(files);
      }
    }

    // ---- removing and replacing packs ----

    // release_pack_file: close the file if it is the open archive.
    method ReleasePackFile(name: string, flashFault: bool)
      requires Valid()
      modifies this`ca, this`generation, this`loads, this`served, this`activeName
      ensures Valid() && Extends(old(served), served) && old(loads) <= loads <= old(loads) + 1
      ensures !(ca.FromFile? && SameName(activeName, name))
      ensures old(ActiveIsInstalled()) ==> ActiveIsInstalled()
      ensures ca.FromFile? ==> ca == old(ca) && activeName == old(activeName)
      ensures old(ca.FromFile?) && SameName(old(activeName), name) ==>
                && ca == (if flash.None? || flashFault then NoArchive else Flash(flash.value)) && activeName == BUILTIN
      ensures !(old(ca.FromFile?) && SameName(old(activeName), name)) ==>
                ca == old(ca) && loads == old(loads) && activeName == old(activeName)
    {
      hide Scan, PackOk, Lookup, Fold;
      if !SameName(activeName, name) || !ca.FromFile? {
        return;
      }
      RevertToFlash(flashFault);
      activeName := BUILTIN;
    }

    // pack_store_remove
    method Remove(name: string, flashFault: bool, unlinkFault: bool) returns (r: Result<()>)
      requires Valid()
      modifies this
      ensures Valid() && Extends(old(served), served) && old(loads) <= loads <= old(loads) + 1
      ensures old(ActiveIsInstalled()) ==> ActiveIsInstalled()
      ensures ca.FromFile? ==> ca == old(ca) && activeName == old(activeName)
      ensures !SafeName(name) ==> r == Err(BadArgument) && files == old(files) && ca == old(ca)
      ensures r.Ok? <==> SafeName(name) && !unlinkFault && Lookup(old(files), PathFor(name)).Some?
      ensures files == if r.Ok? then Delete(old(files), PathFor(name)) else old(files)
      ensures r.Ok? ==> Lookup(files, PathFor(name)).None?
      ensures SafeName(name) ==> !metaValid && !(ca.FromFile? && SameName(activeName, name))
    {
      hide Scan, PackOk, Lookup, Fold, Delete;
      if !SafeName(name) {
        return Err(BadArgument);
      }
      ReleasePackFile(name, flashFault);
      metaValid := false;
      var path := PathFor(name);
      if unlinkFault || Lookup(files, path).None? {
        return Err(NotFound);
      }
      LookupDelete(files, path, path);
      SameNameLaws(path, path, path);
      LookupDelete(files, path, PathFor(activeName));
      SamePath(name, activeName);
      SameNameLaws(name, activeName, name);
      files := Delete(files, path);
      trace := trace + [files];
      r := Ok(());
    }

    // pack_store_begin_upload: on success the temporary file is empty.
    method BeginUpload(name: string, flashFault: bool, openFault: bool) returns (r: Result<()>)
      requires Valid()
      modifies this
      ensures Valid() && Extends(old(served), served) && old(loads) <= loads <= old(loads) + 1
      ensures old(ActiveIsInstalled()) ==> ActiveIsInstalled()
      ensures r.Ok? <==> SafeName(name) && !openFault
      ensures r.Ok? ==> !(ca.FromFile? && SameName(activeName, name))
      ensures files == if r.Ok? then Put(old(files), TEMP, []) else old(files)
      ensures r.Ok? ==> Lookup(files, TEMP) == Some([])
      ensures metaValid == old(metaValid)
    {
      hide Scan, PackOk, Lookup, Fold, Put;
      if !SafeName(name) {
        return Err(BadArgument);
      }
      ReleasePackFile(name, flashFault);
      if openFault {
        return Err(Io);
      }
      WriteTemp([]);
      r := Ok(());
    }

    // Any change of the temporary file leaves packs, cache and archive alone.
    method WriteTemp(data: seq<byte>)
      requires Valid()
      modifies this`files, this`trace
      ensures Valid() && (old(ActiveIsInstalled()) ==> ActiveIsInstalled())
      ensures files == Put(old(files), TEMP, data) && Lookup(files, TEMP) == Some(data)
    {
      hide Scan, PackOk, Lookup, Fold, Put;
      ScanPut(files, TEMP, data);
      LookupPut(files, TEMP, data, TEMP);
      SameNameLaws(TEMP, TEMP, TEMP);
      LookupPut(files, TEMP, data, PathFor(activeName));
      PackPathIsNotWork(activeName);
      files := Put(files, TEMP, data);
      trace := trace + [files];
    }

    // ---- replacing an installed pack ----

    // rename: FAT refuses to replace an existing file.
    method Rename(from: string, to: string, fault: bool) returns (ok: bool)
      requires !SameName(from, to)
      modifies this`files, this`trace
      ensures ok <==> !fault && Lookup(old(files), from).Some? && Lookup(old(files), to).None?
      ensures ok ==> Lookup(files, to) == Lookup(old(files), from) && Lookup(files, from).None?
      ensures ok ==> File(to, Lookup(old(files), from).value) in files
      ensures ok ==> forall n :: !SameName(from, n) && !SameName(to, n) ==> Lookup(files, n) == Lookup(old(files), n)
      ensures !ok ==> files == old(files)
      ensures AtomicStep(old(files), files) && trace == old(trace) + [files]
    {
      hide Lookup, Fold, Delete, SameName;
      var data := Lookup(files, from);
      if fault || data.None? || Lookup(files, to).Some? {
        trace := trace + [files];
        return false;
      }
      var before := files;
      files := Delete(files, from) + [File(to, data.value)];
      trace := trace + [files];
      ok := true;
      SameNameLaws(from, to, from);
      SameNameLaws(to, to, to);
      SameNameLaws(from, from, from);
      forall n
        ensures Lookup(files, n) == if SameName(to, n) then data else if SameName(from, n) then None else Lookup(before, n)
      {
        LookupAdd(Delete(before, from), File(to, data.value), n);
        LookupDelete(before, from, n);
      }
    }

    method Unlink(name: string, fault: bool)
      modifies this`files, this`trace
      ensures files == if fault then old(files) else Delete(old(files), name)
      ensures forall n :: Lookup(files, n) == if !fault && SameName(name, n) then None else Lookup(old(files), n)
      ensures AtomicStep(old(files), files) && trace == old(trace) + [files]
    {
      hide Lookup, Fold, Delete, SameName;
      if !fault {
        forall n ensures Lookup(Delete(files, name), n) == if SameName(name, n) then None else Lookup(files, n) {
          LookupDelete(files, name, n);
        }
        files := Delete(files, name);
      }
      trace := trace + [files];
    }

    // pack_store_finish_upload
    method FinishUpload(name: string, f: FinishFaults) returns (r: Result<nat>)
      requires Valid()
      modifies this`files, this`trace, this`metaValid
      ensures Valid()
      ensures r.Ok? <==> FinishWorks(old(files), name, f)
      ensures var path, new' := PathFor(name), Lookup(old(files), TEMP);
              r.Ok? ==> new'.Some? && PackOk(new'.value).Some? && r.value == PackOk(new'.value).value.index.count
                        && Lookup(files, path) == new' && Lookup(files, TEMP).None? && File(path, new'.value) in files
      // Whatever fails, the staging file is given up.
      ensures r.Err? && !f.unlinkTemp ==> Lookup(files, TEMP).None?
      ensures r.Err? ==> r.error == if f.close || (Staged(old(files), f) && !FinishWorks(old(files), name, f)) then Io else Invalid
      ensures r.Err? ==> OldKept(old(files), files, name, f)
      ensures OthersKept(old(files), files, name)
      // What the trace has gained is every point the directory went through.
      ensures old(trace) < trace && SafeChain(old(files), name, trace[|old(trace)|..])
      ensures r.Ok? && !f.unlinkLast ==> Lookup(files, BACKUP).None?
    {
      hide Scan, PackOk, Lookup, Fold, Delete, InstalledIn, AtomicStep, SameName;
      var data := Lookup(files, TEMP);
      if f.close || f.probe || data.None? || PackOk(data.value).None? || f.lock {
        PackPathIsNotWork(name);
        SameNameLaws(TEMP, TEMP, TEMP);
        UnlinkTempFrame(f.unlinkTemp);
        return Err(if f.close then Io else Invalid);
      }
      var count := PackOk(data.value).value.index.count;
      metaValid := false;
      var ok := Replace(name, f);
      r := if ok then Ok(count) else Err(Io);
    }

    // The replacement itself: old pack to the backup, new pack to its place, and
    // back again if that fails.
    method Replace(name: string, f: FinishFaults) returns (ok: bool)
      requires Traced() && Lookup(files, TEMP).Some? && PackOk(Lookup(files, TEMP).value).Some?
      modifies this`files, this`trace
      ensures ok <==> !f.renameNew && (Lookup(old(files), PathFor(name)).Some? ==> MovesAside(old(files), f))
      ensures ok ==> Lookup(files, PathFor(name)) == Lookup(old(files), TEMP) && Lookup(files, TEMP).None?
      ensures ok ==> File(PathFor(name), Lookup(old(files), TEMP).value) in files
      ensures !ok && !f.unlinkTemp ==> Lookup(files, TEMP).None?
      ensures !ok ==> OldBack(old(files), files, name, f)
      ensures OthersKept(old(files), files, name)
      ensures Traced() && old(trace) < trace && SafeChain(old(files), name, trace[|old(trace)|..])
      ensures ok && !f.unlinkLast ==> Lookup(files, BACKUP).None?
    {
      hide Scan, PackOk, Lookup, Fold, Delete, InstalledIn, AtomicStep, SameName, SafeChain;
      var path := PathFor(name);
      PackPathIsNotWork(name);
      SameNameLaws(path, path, path);
      SameNameLaws(TEMP, TEMP, TEMP);
      SameNameLaws(BACKUP, BACKUP, BACKUP);
      ghost var before, start, was := files, trace, trace;
      NothingTraced(before, name, trace);
      Unlink(BACKUP, f.unlinkBackup);
      TraceGrows(before, name, start, was, files);
      was := trace;
      var hadOld := Lookup(files, path).Some?;
      if hadOld {
        var moved := Rename(path, BACKUP, f.renameOld);
        TraceGrows(before, name, start, was, files);
        was := trace;
        if !moved {
          Unlink(TEMP, f.unlinkTemp);
          TraceGrows(before, name, start, was, files);
          return false;
        }
      }
      ok := MoveIn(name, hadOld, f, before, start);
    }

    // The second half, once no pack stands at the path.
    method MoveIn(name: string, hadOld: bool, f: FinishFaults, ghost d: Dir, ghost start: seq<Dir>) returns (ok: bool)
      requires Traced() && |start| > 0 && start[|start| - 1] == d && start <= trace && SafeChain(d, name, trace[|start|..])
      requires Lookup(files, TEMP) == Lookup(d, TEMP) && Lookup(d, TEMP).Some? && PackOk(Lookup(d, TEMP).value).Some?
      requires Lookup(files, PathFor(name)).None? && hadOld == Lookup(d, PathFor(name)).Some?
      requires hadOld ==> Lookup(files, BACKUP) == Lookup(d, PathFor(name))
      modifies this`files, this`trace
      ensures ok <==> !f.renameNew
      ensures ok ==> Lookup(files, PathFor(name)) == Lookup(d, TEMP) && Lookup(files, TEMP).None?
      ensures ok ==> File(PathFor(name), Lookup(d, TEMP).value) in files
      ensures !ok && !f.unlinkTemp ==> Lookup(files, TEMP).None?
      ensures ok && !f.unlinkLast ==> Lookup(files, BACKUP).None?
      ensures !ok ==> if hadOld && f.rollback then Lookup(files, PathFor(name)).None? && Lookup(files, BACKUP) == Lookup(d, PathFor(name))
                      else Lookup(files, PathFor(name)) == Lookup(d, PathFor(name))
      ensures OthersKept(old(files), files, name)
      ensures Traced() && start < trace && SafeChain(d, name, trace[|start|..])
    {
      hide Scan, PackOk, Lookup, Fold, Delete, InstalledIn, AtomicStep, SameName, SafeChain;
      var path := PathFor(name);
      PackPathIsNotWork(name);
      SameNameLaws(path, path, path);
      SameNameLaws(TEMP, TEMP, TEMP);
      SameNameLaws(BACKUP, BACKUP, BACKUP);
      ghost var was := trace;
      ok := Rename(TEMP, path, f.renameNew);
      TraceGrows(d, name, start, was, files);
      was := trace;
      if !ok {
        if hadOld {
          var back := Rename(BACKUP, path, f.rollback);
          TraceGrows(d, name, start, was, files);
          was := trace;
        }
        Unlink(TEMP, f.unlinkTemp);
        TraceGrows(d, name, start, was, files);
        return false;
      }
      DeleteKeeps(files, BACKUP, File(path, Lookup(d, TEMP).value));
      Unlink(BACKUP, f.unlinkLast);
      TraceGrows(d, name, start, was, files);
    }

    // fwrite at the end of the temporary file.
    method AppendTemp(data: seq<byte>)
      requires Valid() && Lookup(files, TEMP).Some?
      modifies this`files, this`trace
      ensures Valid() && (old(ActiveIsInstalled()) ==> ActiveIsInstalled())
      ensures Lookup(files, TEMP) == Some(Lookup(old(files), TEMP).value + data)
      ensures Scan(files) == Scan(old(files))
      ensures forall n :: !SameName(TEMP, n) ==> Lookup(files, n) == Lookup(old(files), n)
    {
      hide Scan, PackOk, Lookup, Fold, Put, SameName;
      var all := Lookup(files, TEMP).value + data;
      ScanPut(files, TEMP, all);
      ghost var before := files;
      WriteTemp(all);
      forall n ensures Lookup(files, n) == if SameName(TEMP, n) then Some(all) else Lookup(before, n) {
        LookupPut(before, TEMP, all, n);
      }
    }

    // pack_store_abort_upload
    method AbortUpload(unlinkFault: bool)
      requires Valid()
      modifies this`files, this`trace
      ensures Valid() && (old(ActiveIsInstalled()) ==> ActiveIsInstalled())
      ensures Scan(files) == Scan(old(files)) && (!unlinkFault ==> Lookup(files, TEMP).None?)
      ensures forall n :: !SameName(TEMP, n) ==> Lookup(files, n) == Lookup(old(files), n)
    {
      hide Scan, PackOk, Lookup, Fold, Delete, SameName;
      ScanDelete(files, TEMP);
      SameNameLaws(TEMP, TEMP, TEMP);
      PackPathIsNotWork(activeName);
      UnlinkTempFrame(unlinkFault);
    }

    // unlink of the temporary file, for a directory whose cache is still valid.
    method UnlinkTempFrame(fault: bool)
      requires Valid()
      modifies this`files, this`trace
      ensures Valid()
      ensures forall n :: Lookup(files, n) == if !fault && SameName(TEMP, n) then None else Lookup(old(files), n)
      ensures files == if fault then old(files) else Delete(old(files), TEMP)
      ensures AtomicStep(old(files), files) && trace == old(trace) + [files]
    {
      hide Scan, PackOk, Lookup, Fold, Delete, AtomicStep;
      ScanDelete(files, TEMP);
      Unlink(TEMP, fault);
    }
  }

  // One directory operation, or none.
  ghost predicate AtomicStep(a: Dir, b: Dir) {
    || b == a
    || (exists n :: b == Delete(a, n))
    || (exists n, t :: Lookup(a, n).Some? && Lookup(a, t).None? && b == Delete(a, n) + [File(t, Lookup(a, n).value)])
  }

  // The directories one after another, each one operation after the one before.
  ghost predicate Steps(d: Dir, trace: seq<Dir>) {
    forall i :: 0 <= i < |trace| ==> AtomicStep(([d] + trace)[i], trace[i])
  }

  // A chain of single operations with one complete pack at every point of it.
  ghost predicate SafeChain(d: Dir, name: string, t: seq<Dir>) { Steps(d, t) && forall i :: 0 <= i < |t| ==> SafeFrom(d, name, t[i]) }

  // If d has the pack and a new one is staged, now has one of them.
  ghost predicate SafeFrom(d: Dir, name: string, now: Dir) {
    Lookup(d, PathFor(name)).Some? && Lookup(d, TEMP).Some? ==>
      PackIsSafe(now, PathFor(name), Lookup(d, PathFor(name)).value, Lookup(d, TEMP).value)
  }

  // One more operation on the directory, after those since start.
  lemma TraceGrows(d: Dir, name: string, start: seq<Dir>, trace: seq<Dir>, now: Dir)
    requires |start| > 0 && start[|start| - 1] == d && start <= trace && SafeChain(d, name, trace[|start|..])
    requires AtomicStep(trace[|trace| - 1], now) && SafeFrom(d, name, now)
    ensures start < trace + [now] && SafeChain(d, name, (trace + [now])[|start|..])
  {
    hide AtomicStep, SafeFrom;
    var t, more := trace[|start|..], (trace + [now])[|start|..];
    assert more == t + [now];
    forall i | 0 <= i < |more| ensures AtomicStep(([d] + more)[i], more[i]) {
      if i < |t| {
        assert ([d] + more)[i] == ([d] + t)[i] && more[i] == t[i];
      } else {
        assert ([d] + more)[i] == trace[|trace| - 1];
      }
    }
  }

  lemma NothingTraced(d: Dir, name: string, trace: seq<Dir>)
    ensures trace[|trace|..] == [] && SafeChain(d, name, trace[|trace|..])
  {}

  // A complete pack is at the final or the backup path: the old one, or the
  // new one that has been validated.
  ghost predicate PackIsSafe(d: Dir, path: string, old': seq<byte>, new': seq<byte>) {
    Lookup(d, path) == Some(old') || Lookup(d, BACKUP) == Some(old')
    || (Lookup(d, path) == Some(new') && PackOk(new').Some?)
  }

  // The old pack is in its place, or in the backup if the rollback failed too.
  ghost predicate OldKept(before: Dir, after: Dir, name: string, f: FinishFaults) {
    if Staged(before, f) then OldBack(before, after, name, f) else Lookup(after, PathFor(name)) == Lookup(before, PathFor(name))
  }

  // The staging file is closed, valid and under the lock.
  ghost predicate Staged(d: Dir, f: FinishFaults) {
    !f.close && !f.probe && !f.lock && Lookup(d, TEMP).Some? && PackOk(Lookup(d, TEMP).value).Some?
  }

  // An installed pack can be moved to the backup name.
  ghost predicate MovesAside(d: Dir, f: FinishFaults) { !f.renameOld && (Lookup(d, BACKUP).None? || !f.unlinkBackup) }

  // An installed pack is moved to the backup name, and neither the new one nor
  // the old one can be given its name.
  ghost predicate RollbackFails(d: Dir, name: string, f: FinishFaults) {
    Lookup(d, PathFor(name)).Some? && MovesAside(d, f) && f.renameNew && f.rollback
  }

  // After a replacement that failed, the old pack has its name again unless the rollback failed.
  ghost predicate OldBack(before: Dir, after: Dir, name: string, f: FinishFaults) {
    if RollbackFails(before, name, f) then Lookup(after, PathFor(name)).None? && Lookup(after, BACKUP) == Lookup(before, PathFor(name))
    else Lookup(after, PathFor(name)) == Lookup(before, PathFor(name))
  }

  // Only the working files and the pack itself have changed.
  ghost predicate OthersKept(before: Dir, after: Dir, name: string) {
    forall n :: !SameName(TEMP, n) && !SameName(BACKUP, n) && !SameName(PathFor(name), n) ==>
      Lookup(after, n) == Lookup(before, n)
  }

  // When finishing an upload succeeds.
  ghost predicate FinishWorks(d: Dir, name: string, f: FinishFaults) {
    Staged(d, f) && !f.renameNew && (Lookup(d, PathFor(name)).Some? ==> MovesAside(d, f))
  }

  function Smaller(a: nat, b: nat): nat { if a <= b then a else b }

  function Sum(items: seq<Item>): nat {
    if |items| == 0 then 0 else Sum(items[..|items| - 1]) + items[|items| - 1].articles
  }

  lemma {:induction false} ScanSums(d: Dir)
    requires Scan(d).Some?
    ensures Scan(d).value.articles == Sum(Scan(d).value.items)
  {
    hide ListItem;
    if |d| > 0 {
      ScanSums(d[..|d| - 1]);
      var l := Scan(d[..|d| - 1]).value;
      var it := ListItem(d[|d| - 1]);
      if it.Some? {
        assert (l.items + [it.value])[..|l.items|] == l.items;
      }
    }
  }

  // Replacing another pack leaves the open one in place.
  lemma FinishFrame(before: Dir, after: Dir, name: string, active: string)
    requires OthersKept(before, after, name)
    ensures !SameName(active, name) ==> Lookup(after, PathFor(active)) == Lookup(before, PathFor(active))
    ensures SameName(active, name) ==> Lookup(after, PathFor(active)) == Lookup(after, PathFor(name))
    ensures SameName(active, name) ==> Lookup(before, PathFor(active)) == Lookup(before, PathFor(name))
  {
    hide Lookup, SameName;
    PackPathIsNotWork(active);
    SamePath(name, active);
    SamePath(active, name);
    SameNameLaws(name, active, name);
    if SameName(active, name) {
      LookupSame(after, PathFor(active), PathFor(name));
      LookupSame(before, PathFor(active), PathFor(name));
    }
  }

  lemma NextGeneration(n: nat)
    ensures Wrap32(Wrap32(n) + 1) == Wrap32(n + 1)
  {}

  // Fewer than 2^32 loads apart, equal generations are the same load.
  lemma SameGeneration(a: nat, b: nat)
    requires a <= b < a + U32 && Wrap32(a) == Wrap32(b)
    ensures a == b
  {}

  lemma ScanNothing(d: Dir)
    ensures Scan(d[..0]) == Some(Listing([], 0))
  {}

  predicate IsBuiltin(name: string) { name == "" || name == BUILTIN || name == "starter" }

  function Resolve(name: string): string { if IsBuiltin(name) then BUILTIN else name }
}
