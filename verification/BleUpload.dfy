/**
 Pack management over Bluetooth (ble_provisioning.c): an upload announced by
 BEGIN, filled by data writes and installed by COMMIT, next to the commands that
 list, open and delete packs. Everything outside the program (which calls fail,
 how much space is free) comes with each event.
 */
module BleUpload {
  import opened Bytes
  import opened Crc32
  import opened ArchiveFormat
  import opened FileStore
  import opened Options
  import opened PackStore

  const INFO: byte := 0x01
  const PACK_AT: byte := 0x02
  const BEGIN: byte := 0x10
  const COMMIT: byte := 0x11
  const ABORT: byte := 0x12
  const DELETE: byte := 0x20

  const OK: byte := 0
  const BAD_COMMAND: byte := 1
  const BAD_ARGUMENT: byte := 2
  const NO_SPACE: byte := 3
  const IO_ERROR: byte := 4
  const INVALID_PACK: byte := 5
  const NOT_FOUND: byte := 6
  const BAD_OFFSET: byte := 7

  const MESSAGE_MAX := 256

  // What the outside world does during one event.
  datatype Env = Env(locked: bool, total: nat, used: nat, installable: nat, written: nat, scan: bool, rescan: bool,
                     alloc: bool, load: bool, flash: bool, open: bool, unlink: bool, finish: FinishFaults)

  datatype Event =
    | Control(body: seq<byte>, env: Env)
    | Data(body: seq<byte>, env: Env)
    | Disconnect(env: Env)
    // The web server, between Bluetooth events and under the archive lock.
    | WebOpen(name: string, env: Env)
    | WebRemove(name: string, env: Env)
    | WebList(env: Env)

  // The C string held by a byte buffer.
  function CString(s: seq<byte>): (r: string)
    ensures |r| <= |s|
  {
    if |s| == 0 || s[0] == 0 then "" else [s[0] as char] + CString(s[1..])
  }

  function NameBytes(name: string): (s: seq<byte>)
    ensures |s| == |name|
  {
    seq(|name|, i requires 0 <= i < |name| => name[i] as int % 0x100)
  }

  // A safe name survives the trip through bytes.
  lemma {:induction false} NameRoundTrip(name: string)
    requires forall i :: 0 <= i < |name| ==> SafeChar(name[i])
    ensures CString(NameBytes(name)) == name
  {
    if |name| > 0 {
      assert NameBytes(name)[1..] == NameBytes(name[1..]);
      NameRoundTrip(name[1..]);
      assert SafeChar(name[0]);
    }
  }

  // Only validated bytes stand at a pack's path.
  ghost predicate AllPacksOk(d: Dir) {
    forall n :: Lookup(d, PathFor(n)).Some? ==> PackOk(Lookup(d, PathFor(n)).value).Some?
  }

  ghost predicate SamePacks(a: Dir, b: Dir) {
    forall n :: !SameName(TEMP, n) ==> Lookup(a, n) == Lookup(b, n)
  }

  lemma SamePacksOk(a: Dir, b: Dir)
    requires SamePacks(a, b)
    ensures AllPacksOk(a) ==> AllPacksOk(b)
  {
    hide Lookup, Fold, PackOk;
    forall n ensures Lookup(b, PathFor(n)) == Lookup(a, PathFor(n)) {
      PackPathIsNotWork(n);
    }
  }

  // ---- messages ----

  datatype Announcement = Announcement(total: nat, crc: nat, name: string)

  // What a BEGIN message announces, if it is well formed.
  function ParseBegin(body: seq<byte>): Option<Announcement> {
    if |body| < 11 || body[9] == 0 || body[9] > NAME_MAX || |body| != 10 + body[9] then None
    else
      var name := CString(body[10..]);
      if Rd32(body, 1) == 0 || !SafeName(name) then None else Some(Announcement(Rd32(body, 1), Rd32(body, 5), name))
  }

  function EncodeBegin(a: Announcement): seq<byte>
    requires a.total < U32 && a.crc < U32 && |a.name| <= NAME_MAX
  {
    [BEGIN] + Le32(a.total) + Le32(a.crc) + [|a.name|] + NameBytes(a.name)
  }

  lemma BeginRoundTrip(a: Announcement)
    requires 0 < a.total < U32 && a.crc < U32 && SafeName(a.name)
    ensures |EncodeBegin(a)| <= MESSAGE_MAX && EncodeBegin(a)[0] == BEGIN && ParseBegin(EncodeBegin(a)) == Some(a)
  {
    hide Le32, Rd32, NameBytes, CString, Fold;
    var body := EncodeBegin(a);
    assert body[1..5] == Le32(a.total) && body[5..9] == Le32(a.crc);
    Rd32Of(body, 1, Le32(a.total));
    Rd32Of(body, 5, Le32(a.crc));
    assert body[10..] == NameBytes(a.name);
    NameRoundTrip(a.name);
  }

  // The pack name of a DELETE message, if it is well formed.
  function ParseDelete(body: seq<byte>): Option<string> {
    if |body| < 3 || body[1] == 0 || body[1] > NAME_MAX || |body| != 2 + body[1] then None
    else if SafeName(CString(body[2..])) then Some(CString(body[2..])) else None
  }

  function EncodeData(offset: nat, chunk: seq<byte>): seq<byte>
    requires offset < U32
  {
    Le32(offset) + chunk
  }

  // ---- the messages byte by byte ----

  lemma BeginLayout(a: Announcement)
    requires a.total < U32 && a.crc < U32 && |a.name| <= NAME_MAX
    ensures var m := EncodeBegin(a);
            && |m| == 10 + |a.name| && m[0] == 0x10 && Rd32(m, 1) == a.total && Rd32(m, 5) == a.crc
            && m[9] == |a.name| && m[10..] == NameBytes(a.name)
  {
    hide Le32, Rd32, NameBytes;
    var m := EncodeBegin(a);
    assert m[1..5] == Le32(a.total) && m[5..9] == Le32(a.crc);
    Rd32Of(m, 1, Le32(a.total));
    Rd32Of(m, 5, Le32(a.crc));
  }

  // What is read as an announcement has its length and CRC in those places and a
  // name of as many bytes as it says, of which those up to a NUL count.
  lemma BeginParsed(m: seq<byte>)
    requires ParseBegin(m).Some?
    ensures var a := ParseBegin(m).value;
            && 11 <= |m| == 10 + m[9] <= 50 && 0 < a.total == Rd32(m, 1) && a.crc == Rd32(m, 5) && SafeName(a.name)
            && NameBytes(a.name) <= m[10..] && (|a.name| == m[9] || m[10 + |a.name|] == 0)
  {
    hide Rd32, SafeName;
    CStringFront(m[10..]);
  }

  lemma {:induction false} CStringFront(s: seq<byte>)
    ensures |CString(s)| <= |s| && NameBytes(CString(s)) <= s && (|CString(s)| == |s| || s[|CString(s)|] == 0)
  {
    if |s| > 0 && s[0] != 0 {
      CStringFront(s[1..]);
      assert s == [s[0]] + s[1..];
    }
  }

  // A DELETE message is its code, the length of a safe name of at most 40 bytes, and the name.
  lemma DeleteLayout(name: string)
    requires SafeName(name)
    ensures |name| <= 40 && ParseDelete([0x20, |name|] + NameBytes(name)) == Some(name)
  {
    hide CString, NameBytes, Fold;
    var m := [0x20, |name|] + NameBytes(name);
    assert m[2..] == NameBytes(name);
    NameRoundTrip(name);
  }

  lemma ItemLayout(index: nat, it: Item)
    requires index < 0x1_0000
    ensures var r := ItemReply(index, it);
            && |r| == 13 + |it.name| && r[0] == 0x02 && r[1] == 0 && Rd16(r, 2) == index
            && Rd32(r, 4) == it.articles % 0x1_0000_0000 && Rd32(r, 8) == it.bytes % 0x1_0000_0000
            && r[12] == |it.name| % 0x100 && r[13..] == NameBytes(it.name)
  {
    hide Le32, Le16, Rd32, Rd16, NameBytes;
    var r := ItemReply(index, it);
    assert r[2..4] == Le16(index) && r[4..8] == Le32(Wrap32(it.articles)) && r[8..12] == Le32(Wrap32(it.bytes));
    Rd16Of(r, 2, Le16(index));
    Rd32Of(r, 4, Le32(Wrap32(it.articles)));
    Rd32Of(r, 8, Le32(Wrap32(it.bytes)));
  }

  // Whether a data message extends an upload that stands at received of expected.
  predicate DataFits(body: seq<byte>, received: nat, expected: nat) {
    4 < |body| <= MESSAGE_MAX && Rd32(body, 0) == received && received + |body| - 4 <= expected
  }

  // s_upload; open stands for a file handle that is not null.
  datatype Upload = Upload(open: bool, name: string, expected: nat, received: nat, expectedCrc: nat, crc: bv32)

  const IDLE := Upload(false, "", 0, 0, 0, 0)

  // An open upload: the temporary file is what has been accepted so far.
  ghost predicate UploadOk(up: Upload, accepted: seq<byte>, temp: Option<seq<byte>>, maxUpload: nat) {
    && temp == Some(accepted)
    && up.received == |accepted| <= up.expected <= maxUpload
    && up.crc == Crc(accepted)
    && SafeName(up.name)
    && 0 < up.expected
  }

  // What COMMIT checks before it installs.
  predicate Complete(up: Upload) { up.open && up.received == up.expected && Number(up.crc) == up.expectedCrc }

  // The answer to PACK_AT for one library.
  function ItemReply(index: nat, it: Item): seq<byte>
    requires index < 0x1_0000
  {
    [PACK_AT, OK] + Le16(index) + Le32(Wrap32(it.articles)) + Le32(Wrap32(it.bytes)) + [|it.name| % 0x100] + NameBytes(it.name)
  }

  // ---- what a sequence of events does to an upload, read off the events ----

  // The event opens the pack n, or would.
  predicate Opens(e: Event, n: string) {
    match e
    case Control(body, env) =>
      env.locked && |body| == 3 && body[0] == PACK_AT && Rd16(body, 1) == 0 && SameName(BUILTIN, n)
    case WebOpen(wanted, _) => SameName(Resolve(wanted), n)
    case _ => false
  }

  // The event starts an upload of n, if none is open.
  predicate Begins(e: Event, n: string, maxUpload: nat) {
    e.Control? && e.env.locked && 0 < |e.body| <= MESSAGE_MAX && e.body[0] == BEGIN && !e.env.open &&
    var a := ParseBegin(e.body);
    a.Some? && a.value.name == n && a.value.total <= maxUpload && a.value.total <= e.env.installable
  }

  // The event leaves no upload open.
  predicate Ends(e: Event) {
    || e.Disconnect?
    || (e.Control? && e.env.locked && 0 < |e.body| <= MESSAGE_MAX && e.body[0] in {COMMIT, ABORT})
  }

  // From some event on, the pack n is not opened before an upload would have ended.
  ghost predicate Undisturbed(events: seq<Event>, from: nat, n: string) {
    forall j :: from <= j < |events| && Opens(events[j], n) ==> exists l :: from <= l < j && Ends(events[l])
  }

  // No pack is opened while it is being uploaded.
  ghost predicate NoneReopened(events: seq<Event>, maxUpload: nat) {
    forall i, n :: 0 <= i < |events| && Begins(events[i], n, maxUpload) ==> Undisturbed(events, i + 1, n)
  }

  // What a data message adds to an upload that goes on.
  function Taken(acc: seq<byte>, e: Event, total: nat): seq<byte> {
    if e.Data? && DataFits(e.body, |acc|, total) then acc + e.body[4..] else acc
  }

  // The chunks that fit, one after the other.
  function Replay(acc: seq<byte>, events: seq<Event>, total: nat): seq<byte> {
    if |events| == 0 then acc else Taken(Replay(acc, events[..|events| - 1], total), events[|events| - 1], total)
  }

  lemma CompleteIsOpen(up: Upload)
    ensures Complete(up) ==> up.open
  {}

  class Ble {
    const store: Store
    const maxUpload: nat

    var up: Upload
    var response: seq<byte>

    // The chunks accepted since BEGIN, in order.
    ghost var accepted: seq<byte>
    // The pack being uploaded has been opened again since BEGIN closed it.
    ghost var reopened: bool
    // Some COMMIT has taken the file of the open archive away.
    ghost var stale: bool

    ghost predicate Serving(n: string)
      reads store
    {
      store.ca.FromFile? && SameName(store.activeName, n)
    }

    // A commit of these bytes over the open pack takes its file away from it: by
    // other bytes, or by a rollback that fails.
    ghost predicate GoesStale(n: string, data: seq<byte>, f: FinishFaults)
      requires store.ca.FromFile?
      reads store
    {
      if FinishWorks(store.files, n, f) then store.ca.data != data else Staged(store.files, f) && RollbackFails(store.files, n, f)
    }

    // The open archive is the installed file, unless it went stale, and is not
    // about to be replaced, unless it was reopened.
    ghost predicate Steady()
      reads this, store
    {
      store.Valid() && (!stale ==> store.ActiveIsInstalled()) && (up.open && !reopened ==> !Serving(up.name))
    }

    ghost predicate Valid()
      reads this, store
    {
      Steady() && if up.open then UploadOk(up, accepted, Lookup(store.files, TEMP), maxUpload)
                  else up == IDLE && accepted == []
    }

    // ---- what each message does ----

    // Nothing but the response, the metadata cache and what is open.
    twostate predicate KeepsUpload()
      reads this, store
    {
      up == old(up) && accepted == old(accepted) && stale == old(stale) && store.files == old(store.files)
    }

    twostate predicate KeepsArchive()
      reads this, store
    {
      store.ca == old(store.ca) && store.activeName == old(store.activeName) && store.generation == old(store.generation)
      && store.loads == old(store.loads) && reopened == old(reopened)
    }

    // begin_upload
    twostate predicate Begun(body: seq<byte>, env: Env)
      reads this, store
    {
      var a := ParseBegin(body);
      && stale == old(stale) && SamePacks(old(store.files), store.files)
      && if old(up.open) then KeepsUpload() && KeepsArchive() && response == [BEGIN, BAD_ARGUMENT]
         else if a.None? || a.value.total > maxUpload then KeepsUpload() && KeepsArchive() && response == [BEGIN, BAD_ARGUMENT]
         else if a.value.total > env.installable then KeepsUpload() && KeepsArchive() && response == [BEGIN, NO_SPACE]
         else if env.open then up == IDLE && response == [BEGIN, IO_ERROR]
         else
           && up == Upload(true, a.value.name, a.value.total, 0, a.value.crc, 0) && accepted == [] && !reopened
           && !Serving(a.value.name) && Lookup(store.files, TEMP) == Some([]) && response == [BEGIN, OK] + Le32(0)
    }

    // data_access: taken, ended by a short write, or refused.
    twostate predicate Took(body: seq<byte>, env: Env)
      reads this, store
    {
      && KeepsArchive() && stale == old(stale) && SamePacks(old(store.files), store.files)
      && Scan(store.files) == Scan(old(store.files))
      && if !(old(up.open) && DataFits(body, old(up.received), old(up.expected))) then
           KeepsUpload() && response == if old(up.open) && 4 < |body| <= MESSAGE_MAX then [BEGIN, BAD_OFFSET] else old(response)
         else if env.written < |body| - 4 then up == IDLE && response == old(response)
         else
           && up == old(up).(received := |accepted|, crc := Crc(accepted)) && accepted == old(accepted) + body[4..]
           && Lookup(store.files, TEMP) == Some(accepted) && response == old(response)
    }

    // commit_upload
    twostate predicate Committed(env: Env)
      reads this, store
    {
      var works := old(Complete(up)) && FinishWorks(old(store.files), old(up.name), env.finish);
      && !up.open && KeepsArchive() && OthersKept(old(store.files), store.files, old(up.name))
      && (works ==>
            && |old(accepted)| == old(up.expected) && CrcValue(old(accepted)) == old(up.expectedCrc)
            && Lookup(store.files, PathFor(old(up.name))) == Some(old(accepted)) && PackOk(old(accepted)).Some?
            && File(PathFor(old(up.name)), old(accepted)) in store.files
            && response == [COMMIT, OK] + Le32(Wrap32(PackOk(old(accepted)).value.index.count)))
      && (!works ==>
            && response == [COMMIT, INVALID_PACK]
            && if old(Complete(up)) then OldKept(old(store.files), store.files, old(up.name), env.finish)
               else SamePacks(old(store.files), store.files))
      && (!old(stale) && old(Complete(up) && Serving(up.name)) ==> (stale <==> old(GoesStale(up.name, accepted, env.finish))))
      && (!old(stale) && stale ==> old(Complete(up) && reopened && Serving(up.name)) && !store.ActiveIsInstalled())
    }

    // abort_upload
    twostate predicate Aborted(unlinkFault: bool)
      reads this, store
    {
      && up == IDLE && KeepsArchive() && stale == old(stale) && SamePacks(old(store.files), store.files)
      && (old(up.open) && !unlinkFault ==> Lookup(store.files, TEMP).None?)
      && (!old(up.open) ==> store.files == old(store.files))
    }

    // delete_pack
    twostate predicate Deleted(body: seq<byte>, env: Env)
      reads this, store
    {
      var n := ParseDelete(body);
      && up == old(up) && accepted == old(accepted) && stale == old(stale)
      && if n.None? then response == [DELETE, BAD_ARGUMENT] && store.files == old(store.files) && KeepsArchive()
         else if env.unlink || Lookup(old(store.files), PathFor(n.value)).None? then
           response == [DELETE, NOT_FOUND] && store.files == old(store.files) && !Serving(n.value)
         else
           && response == [DELETE, OK] && store.files == Delete(old(store.files), PathFor(n.value)) && !Serving(n.value)
    }

    // respond_info
    twostate predicate Informed(env: Env)
      reads this, store
    {
      && KeepsUpload() && KeepsArchive() && |response| == 16 && response[..2] == [INFO, OK]
      && Rd32(response, 2) == Wrap32(env.total) && Rd32(response, 6) == Wrap32(env.used)
      && Rd32(response, 10) == Wrap32(env.installable)
      && (!env.scan && Scan(store.files).Some? ==> Rd16(response, 14) == (|Scan(store.files).value.items| + 1) % 0x1_0000)
    }

    // respond_pack_at
    twostate predicate Answered(index: nat, env: Env)
      requires index < 0x1_0000
      reads this, store
    {
      var listed := if Scan(store.files).Some? then Scan(store.files).value.items else [];
      && KeepsUpload()
      && (up.open && reopened ==> old(reopened) || SameName(BUILTIN, up.name))
      && if index > 0 then
           && KeepsArchive()
           && (response == [PACK_AT, NOT_FOUND] || (index <= |listed| && response == ItemReply(index, listed[index - 1])))
           && (!env.scan && !env.alloc && !env.rescan && Scan(store.files).Some? && |listed| < 0x1_0000 ==>
                 response == if index <= |listed| then ItemReply(index, listed[index - 1]) else [PACK_AT, NOT_FOUND])
         else
           && response == ItemReply(0, Item(BUILTIN, if store.ca.NoArchive? then 0 else store.ca.count, 0))
           && OpensWhole(BUILTIN, env)
    }

    // A valid installed pack that is asked for is opened.
    ghost predicate OpensWhole(wanted: string, env: Env)
      reads this, store
    {
      var f := Lookup(store.files, PathFor(Resolve(wanted)));
      f.Some? && PackOk(f.value).Some? && !env.load && (IsBuiltin(wanted) || SafeName(wanted)) && !stale ==>
        store.ca.FromFile? && store.ca.data == f.value && SameName(store.activeName, Resolve(wanted))
    }

    // pack_store_remove, for a web request
    twostate predicate WebRemoved(wanted: string, env: Env)
      reads this, store
    {
      && up == old(up) && accepted == old(accepted) && stale == old(stale)
      && store.files == (if SafeName(wanted) && !env.unlink && Lookup(old(store.files), PathFor(wanted)).Some?
                         then Delete(old(store.files), PathFor(wanted)) else old(store.files))
      && (SafeName(wanted) ==> !Serving(wanted))
    }

    // control_access
    twostate predicate Handled(body: seq<byte>, env: Env)
      reads this, store
    {
      if !(1 <= |body| <= MESSAGE_MAX) then KeepsUpload() && KeepsArchive() && response == old(response)
      else if !env.locked then KeepsUpload() && KeepsArchive() && response == [body[0], IO_ERROR]
      else if body[0] == INFO then Informed(env)
      else if body[0] == PACK_AT then
        if |body| == 3 then Answered(Rd16(body, 1), env)
        else KeepsUpload() && KeepsArchive() && response == [PACK_AT, BAD_ARGUMENT]
      else if body[0] == BEGIN then Begun(body, env)
      else if body[0] == COMMIT then Committed(env)
      else if body[0] == ABORT then Aborted(env.unlink) && response == [ABORT, OK]
      else if body[0] == DELETE then Deleted(body, env)
      else KeepsUpload() && KeepsArchive() && response == [body[0], BAD_COMMAND]
    }

    constructor (store: Store, maxUpload: nat)
      requires store.Valid() && store.ActiveIsInstalled()
      ensures Valid() && !up.open && !stale && this.store == store && this.maxUpload == maxUpload
    {
      this.store, this.maxUpload := store, maxUpload;
      up, response, accepted, reopened, stale := IDLE, [0, 0], [], false, false;
    }

    // abort_upload
    method AbortUpload(unlinkFault: bool)
      requires Steady()
      modifies this`up, this`accepted, store`files, store`trace
      ensures Valid() && Aborted(unlinkFault) && Scan(store.files) == Scan(old(store.files))
    {
      hide Scan, PackOk, Lookup, SameName, UploadOk, Store.Valid, InstalledIn, Delete;
      if up.open {
        store.AbortUpload(unlinkFault);
      }
      up, accepted := IDLE, [];
    }

    // The last part of begin_upload, once the announcement has been accepted.
    method StartUpload(a: Announcement, env: Env)
      requires Valid() && !up.open && SafeName(a.name) && 0 < a.total <= maxUpload
      modifies this, store
      ensures Valid() && Follows(old(store.served), store.served, old(store.loads), store.loads)
      ensures SamePacks(old(store.files), store.files) && store.metaValid == old(store.metaValid)
      ensures old(stale) == stale
      ensures if env.open then up == IDLE
              else up == Upload(true, a.name, a.total, 0, a.crc, 0) && accepted == [] && !reopened && !Serving(a.name)
                   && Lookup(store.files, TEMP) == Some([])
      ensures response == if env.open then [BEGIN, IO_ERROR] else [BEGIN, OK] + Le32(0)
    {
      hide Scan, PackOk, Lookup, SameName, Crc, SafeName, Put, Le32, Store.Valid, InstalledIn;
      AbortUpload(env.unlink);
      ghost var before := store.files;
      var begun := store.BeginUpload(a.name, env.flash, env.open);
      if begun.Err? {
        response := [BEGIN, IO_ERROR];
        return;
      }
      PutIsTemp(before, []);
      CrcNothing();
      up, reopened, response := Upload(true, a.name, a.total, 0, a.crc, 0), false, [BEGIN, OK] + Le32(0);
    }

    // begin_upload
    method BeginUpload(body: seq<byte>, env: Env)
      requires Valid()
      modifies this, store
      ensures Valid() && Follows(old(store.served), store.served, old(store.loads), store.loads)
      ensures Begun(body, env) && store.metaValid == old(store.metaValid)
    {
      hide Scan, PackOk, Lookup, SameName, Crc, SafeName, CString, Rd32, Le32, Store.Valid, InstalledIn, UploadOk;
      response := [BEGIN, BAD_ARGUMENT];
      if |body| < 11 || up.open {
        return;
      }
      var total, checksum, nameLen := Rd32(body, 1), Rd32(body, 5), body[9];
      if nameLen == 0 || nameLen > NAME_MAX || |body| != 10 + nameLen || total == 0 || total > maxUpload {
        return;
      }
      var wanted := CString(body[10..]);
      if !SafeName(wanted) {
        return;
      }
      if total > env.installable {
        response := [BEGIN, NO_SPACE];
        return;
      }
      StartUpload(Announcement(total, checksum, wanted), env);
    }

    // data_access: a write is taken only at the right offset and within the
    // announced length; a short file write aborts the upload.
    method DataAccess(body: seq<byte>, env: Env) returns (taken: bool)
      requires Valid()
      modifies this`up, this`accepted, this`response, store`files, store`trace
      ensures Valid() && Took(body, env)
      ensures taken <==> old(up.open) && DataFits(body, old(up.received), old(up.expected)) && env.written >= |body| - 4
    {
      hide Scan, PackOk, Lookup, SameName, Crc, Extend, SafeName, Rd32, Store.Valid, InstalledIn;
      if !up.open || |body| <= 4 || |body| > MESSAGE_MAX {
        return false;
      }
      var offset, count := Rd32(body, 0), |body| - 4;
      if offset != up.received || count > up.expected - up.received {
        response := [BEGIN, BAD_OFFSET];
        return false;
      }
      var chunk := body[4..];
      store.AppendTemp(Take(chunk, env.written));
      if env.written < count {
        AbortUpload(env.unlink);
        return false;
      }
      CrcGrows(accepted, chunk);
      up, accepted := up.(crc := Extend(up.crc, chunk), received := up.received + count), accepted + chunk;
      taken := true;
    }

    // The last part of commit_upload, once length and CRC agree.
    method InstallUpload(env: Env) returns (finished: Result<nat>)
      requires Valid() && up.open
      modifies this`up, this`accepted, this`stale, store`files, store`trace, store`metaValid
      ensures Valid() && !up.open
      ensures finished.Ok? <==> FinishWorks(old(store.files), old(up.name), env.finish)
      ensures finished.Ok? ==>
                && Lookup(store.files, PathFor(old(up.name))) == Some(old(accepted)) && PackOk(old(accepted)).Some?
                && finished.value == PackOk(old(accepted)).value.index.count
                && File(PathFor(old(up.name)), old(accepted)) in store.files
      ensures finished.Err? ==> OldKept(old(store.files), store.files, old(up.name), env.finish)
      ensures OthersKept(old(store.files), store.files, old(up.name))
      ensures old(AllPacksOk(store.files)) ==> AllPacksOk(store.files)
      ensures !old(stale) && stale ==> old(reopened && Serving(up.name)) && !store.ActiveIsInstalled()
      ensures !old(stale) && old(Serving(up.name)) ==>
                (stale <==> old(GoesStale(up.name, accepted, env.finish)))
    {
      hide Scan, PackOk, Lookup, SameName, Crc, SafeName, Store.Valid, FinishWorks, AllPacksOk, OthersKept, InstalledIn;
      ghost var before, serving := store.files, Serving(up.name);
      finished := store.FinishUpload(up.name, env.finish);
      FinishPacksOk(before, store.files, up.name);
      if !stale {
        FinishActive(before, store.files, up.name, store.ca, store.activeName);
      }
      stale := stale || (serving && Lookup(store.files, PathFor(up.name)) != Some(store.ca.data));
      up, accepted := IDLE, [];
    }

    // commit_upload
    method CommitUpload(env: Env)
      requires Valid()
      modifies this`up, this`accepted, this`response, this`stale, store`files, store`trace, store`metaValid
      ensures Valid() && Committed(env)
      ensures old(AllPacksOk(store.files)) ==> AllPacksOk(store.files)
    {
      hide Scan, PackOk, Lookup, SameName, SafeName, Le32, Store.Valid, FinishWorks, AllPacksOk, InstalledIn, Extend;
      response := [COMMIT, BAD_ARGUMENT];
      if !up.open || up.received != up.expected || Number(up.crc) != up.expectedCrc {
        ghost var before := store.files;
        AbortUpload(env.unlink);
        PackPathIsNotWork(old(up.name));
        SamePacksOk(before, store.files);
        response := [COMMIT, INVALID_PACK];
        return;
      }
      var finished := InstallUpload(env);
      response := if finished.Err? then [COMMIT, INVALID_PACK] else [COMMIT, OK] + Le32(Wrap32(finished.value));
    }

    // Opening a library, for PACK_AT or for a web request.
    method OpenLibrary(wanted: string, env: Env) returns (r: Result<()>)
      requires Valid()
      modifies this`reopened, store`ca, store`generation, store`loads, store`served, store`activeName
      ensures Valid() && Follows(old(store.served), store.served, old(store.loads), store.loads)
      ensures !stale && r.Ok? ==> store.Serves(wanted)
      ensures r.Ok? ==> !store.ca.NoArchive?
      ensures r.Err? && IsBuiltin(wanted) ==> store.ca.NoArchive?
      ensures OpensWhole(wanted, env)
      ensures reopened <==> old(reopened) || (up.open && Serving(up.name))
      ensures up.open && reopened ==> old(reopened) || SameName(Resolve(wanted), up.name)
    {
      hide Scan, PackOk, Lookup, SameName, UploadOk, Store.Valid, Store.Serves, IsBuiltin;
      SameNameLaws(Resolve(wanted), Resolve(wanted), Resolve(wanted));
      r := store.OpenForRead(wanted, env.load, env.flash);
      reopened := reopened || (up.open && Serving(up.name));
    }

    // respond_pack_at
    method RespondPackAt(index: nat, env: Env)
      requires Valid() && index < 0x1_0000
      modifies this`response, this`reopened, store`metaValid, store`metaCount, store`metaArticles, store`metadata,
               store`ca, store`generation, store`loads, store`served, store`activeName
      ensures Valid() && Follows(old(store.served), store.served, old(store.loads), store.loads)
      ensures Answered(index, env)
    {
      hide Scan, PackOk, Lookup, SameName, UploadOk, Store.Valid, InstalledIn, ItemReply, IsBuiltin;
      SafeBuiltin();
      var n, items := store.ListAll(env.scan, env.alloc, env.rescan);
      if index == 0 {
        var served := OpenLibrary(BUILTIN, env);
        response := ItemReply(0, Item(BUILTIN, if served.Ok? then store.ca.count else 0, 0));
      } else if n >= 0 && index <= n % 0x1_0000 {
        response := ItemReply(index, items[index - 1]);
      } else {
        response := [PACK_AT, NOT_FOUND];
      }
      ItemReplyHead();
    }

    // respond_info
    method RespondInfo(env: Env)
      requires Valid()
      modifies this`response, store`metaValid, store`metaCount, store`metaArticles, store`metadata
      ensures Valid() && Informed(env)
    {
      hide Scan, PackOk, Lookup, SameName, UploadOk, Store.Valid, InstalledIn, Le32, Le16, Rd16, Rd32;
      var n := store.Count(env.scan);
      var a, b, c, d := Le32(Wrap32(env.total)), Le32(Wrap32(env.used)), Le32(Wrap32(env.installable)), Le16((n + 1) % 0x1_0000);
      response := [INFO, OK] + a + b + c + d;
      assert response[2..6] == a && response[6..10] == b && response[10..14] == c && response[14..16] == d;
      Rd32Of(response, 2, a);
      Rd32Of(response, 6, b);
      Rd32Of(response, 10, c);
      Rd16Of(response, 14, d);
    }

    // Removing a pack, for DELETE or for a web request.
    method RemovePack(wanted: string, env: Env) returns (r: Result<()>)
      requires Valid()
      modifies store
      ensures Valid() && Follows(old(store.served), store.served, old(store.loads), store.loads)
      ensures r.Ok? <==> SafeName(wanted) && !env.unlink && Lookup(old(store.files), PathFor(wanted)).Some?
      ensures store.files == if r.Ok? then Delete(old(store.files), PathFor(wanted)) else old(store.files)
      ensures SafeName(wanted) ==> !Serving(wanted)
      ensures old(AllPacksOk(store.files)) ==> AllPacksOk(store.files)
    {
      hide Scan, PackOk, Lookup, SameName, SafeName, Store.Valid, InstalledIn, Delete, AllPacksOk;
      r := store.Remove(wanted, env.flash, env.unlink);
      DeletePacksOk(old(store.files), wanted);
    }

    // delete_pack
    method DeletePack(body: seq<byte>, env: Env)
      requires Valid()
      modifies this`response, store
      ensures Valid() && Follows(old(store.served), store.served, old(store.loads), store.loads)
      ensures old(AllPacksOk(store.files)) ==> AllPacksOk(store.files)
      ensures Deleted(body, env)
    {
      hide Scan, PackOk, Lookup, SameName, SafeName, Store.Valid, InstalledIn, Delete, AllPacksOk, UploadOk, CString;
      response := [DELETE, BAD_ARGUMENT];
      if |body| < 3 || body[1] == 0 || body[1] > NAME_MAX || |body| != 2 + body[1] {
        return;
      }
      var wanted := CString(body[2..]);
      if !SafeName(wanted) {
        return;
      }
      var removed := RemovePack(wanted, env);
      response := [DELETE, if removed.Ok? then OK else NOT_FOUND];
    }

    // control_access: one command, under the archive lock.
    method ControlAccess(body: seq<byte>, env: Env) returns (ok: bool)
      requires Valid()
      modifies this, store
      ensures Valid() && Follows(old(store.served), store.served, old(store.loads), store.loads)
      ensures old(AllPacksOk(store.files)) ==> AllPacksOk(store.files)
      ensures ok <==> 1 <= |body| <= MESSAGE_MAX
      ensures Handled(body, env)
      ensures up.open && !old(up.open) ==> !reopened && Begins(Control(body, env), up.name, maxUpload) && accepted == []
      ensures up.open && old(up.open) ==>
                up.name == old(up.name) && !Ends(Control(body, env)) && accepted == old(accepted) && up.expected == old(up.expected)
      ensures up.open && old(up.open) && reopened ==> old(reopened) || Opens(Control(body, env), up.name)
      ensures !old(stale) && stale ==> old(Complete(up) && reopened)
    {
      hide Scan, PackOk, Lookup, SameName, SafeName, Store.Valid, InstalledIn, Delete, AllPacksOk, UploadOk, Rd16, Rd32, Le32,
           ItemReply, CString, SamePacks, ParseBegin, ParseDelete, FinishWorks, OldKept, OthersKept, Complete;
      if |body| == 0 || |body| > MESSAGE_MAX {
        return false;
      }
      ok := true;
      ghost var before := store.files;
      SamePacksSelf(before);
      if !env.locked {
        response := [body[0], IO_ERROR];
      } else if body[0] == INFO {
        RespondInfo(env);
      } else if body[0] == PACK_AT {
        if |body| == 3 {
          RespondPackAt(Rd16(body, 1), env);
        } else {
          response := [PACK_AT, BAD_ARGUMENT];
        }
      } else if body[0] == BEGIN {
        BeginUpload(body, env);
      } else if body[0] == COMMIT {
        CommitUpload(env);
      } else if body[0] == ABORT {
        AbortUpload(env.unlink);
        response := [ABORT, OK];
      } else if body[0] == DELETE {
        DeletePack(body, env);
      } else {
        response := [body[0], BAD_COMMAND];
      }
      if SamePacks(before, store.files) {
        SamePacksOk(before, store.files);
      }
    }

    method Step(e: Event)
      requires Valid()
      modifies this, store
      ensures Valid() && Follows(old(store.served), store.served, old(store.loads), store.loads)
      ensures old(AllPacksOk(store.files)) ==> AllPacksOk(store.files)
      ensures !old(stale) && stale ==> old(Complete(up) && reopened)
      ensures match e
              case Control(body, env) => Handled(body, env)
              case Data(body, env) => Took(body, env)
              case Disconnect(env) => Aborted(env.unlink) && response == old(response)
              case WebOpen(wanted, env) => KeepsUpload() && OpensWhole(wanted, env) && response == old(response)
              case WebRemove(wanted, env) => WebRemoved(wanted, env) && response == old(response)
              case WebList(env) => KeepsUpload() && KeepsArchive() && response == old(response)
      // How an upload starts, goes on and is opened again.
      ensures up.open && !old(up.open) ==> !reopened && Begins(e, up.name, maxUpload)
      ensures up.open && old(up.open) ==> up.name == old(up.name) && !Ends(e)
      ensures up.open && old(up.open) && reopened ==> old(reopened) || Opens(e, up.name)
      // Only data messages that fit add to the staging file, each its own bytes,
      // and one that cannot be written whole ends the upload.
      ensures up.open && !old(up.open) ==> accepted == []
      ensures up.open && old(up.open) ==> up.expected == old(up.expected) && accepted == Taken(old(accepted), e, up.expected)
      ensures e.Data? ==>
                (up.open <==> old(up.open) && !(DataFits(e.body, |old(accepted)|, old(up.expected)) && e.env.written < |e.body| - 4))
    {
      hide Scan, PackOk, Lookup, SameName, SafeName, Store.Valid, InstalledIn, Delete, AllPacksOk, UploadOk, SamePacks, Complete, Rd32;
      ghost var before := store.files;
      match e
      case Control(body, env) =>
        var ok := ControlAccess(body, env);
      case Data(body, env) =>
        if up.open { OpenTemp(); }
        var taken := DataAccess(body, env);
        SamePacksOk(before, store.files);
      case Disconnect(env) =>
        AbortUpload(env.unlink);
        SamePacksOk(before, store.files);
      case WebOpen(wanted, env) =>
        var r := OpenLibrary(wanted, env);
      case WebRemove(wanted, env) =>
        var r := RemovePack(wanted, env);
      case WebList(env) =>
        var n, items := store.ListAll(env.scan, env.alloc, env.rescan);
    }

    // Any run. The log holds the archive and its generation after every event.
    method Run(events: seq<Event>) returns (ghost log: seq<(nat, Active)>)
      requires Valid()
      modifies this, store
      ensures Valid()
      ensures old(AllPacksOk(store.files)) ==> AllPacksOk(store.files)
      // The served file is the installed one, if no pack is opened while it is
      // being uploaded.
      ensures !old(stale) && NoneReopened(events, maxUpload)
              && (old(up.open) ==> !old(reopened) && Undisturbed(events, 0, old(up.name))) ==>
                !stale && store.ActiveIsInstalled()
      // The staging file of an open upload is what the data messages since its
      // BEGIN amount to.
      ensures up.open ==>
                && Lookup(store.files, TEMP) == Some(accepted)
                && ((old(up.open) && accepted == Replay(old(accepted), events, up.expected))
                    || exists i :: 0 <= i < |events| && Begins(events[i], up.name, maxUpload)
                                   && accepted == Replay([], events[i + 1..], up.expected))
      ensures |log| == |events| + 1
      ensures log[0] == old((store.generation, store.ca)) && log[|events|] == (store.generation, store.ca)
      // Equal generations of valid archives mean the same archive, unless 2^32
      // events lie between them.
      ensures forall i, j :: 0 <= i <= j < |log| && j - i < U32 ==>
                log[i].0 == log[j].0 && !log[i].1.NoArchive? && !log[j].1.NoArchive? ==> log[i].1 == log[j].1
    {
      hide Scan, PackOk, Lookup, SameName, AllPacksOk, UploadOk, Complete, Opens, Begins, Ends, Taken, Replay, Fed, Going,
           Undisturbed, NoneReopened, DataFits, InstalledIn;
      log := [(store.generation, store.ca)];
      ghost var at := [store.loads];
      ghost var kept := !old(stale) && NoneReopened(events, maxUpload)
                        && (old(up.open) ==> !old(reopened) && Undisturbed(events, 0, old(up.name)));
      ghost var since: nat := 0;
      FedFirst(events, up, accepted, maxUpload);
      GoingFirst(events, up.name);
      for k := 0 to |events|
        invariant Valid() && (old(AllPacksOk(store.files)) ==> AllPacksOk(store.files))
        invariant kept ==> !stale && (up.open ==> Going(events, since, k, up.name) && !reopened)
        invariant Fed(events, since, k, up, accepted, old(up.open), old(accepted), maxUpload)
        invariant |log| == k + 1 && log[0] == old((store.generation, store.ca)) && log[k] == (store.generation, store.ca)
        invariant LogOk(log, at, store.served) && at[k] == store.loads
      {
        ghost var before, was, had, again := store.served, up, accepted, reopened;
        CompleteIsOpen(up);
        Step(events[k]);
        FedNext(events, since, k, was, had, up, accepted, old(up.open), old(accepted), maxUpload);
        if kept {
          GoingNext(events, since, k, was, up, again, reopened, maxUpload);
        }
        since := if was.open then since else k + 1;
        LogGrows(log, at, before, store.served, store.loads, store.ca);
        log, at := log + [(store.generation, store.ca)], at + [store.loads];
      }
      LogTells(log, at, store.served);
      if up.open {
        FedLast(events, since, up, accepted, old(up.open), old(accepted), maxUpload);
        OpenTemp();
      }
    }

    lemma OpenTemp()
      requires Valid() && up.open
      ensures Lookup(store.files, TEMP) == Some(accepted) && up.received == |accepted|
    {
      hide Lookup, Store.Valid, InstalledIn, SameName;
    }
  }

  // The open upload began before event since and has taken what fitted up to event k.
  ghost predicate Fed(events: seq<Event>, since: nat, k: nat, up: Upload, accepted: seq<byte>,
                      wasOpen: bool, had: seq<byte>, maxUpload: nat)
  {
    up.open ==>
      && since <= k <= |events| && (if since == 0 then wasOpen else Begins(events[since - 1], up.name, maxUpload))
      && accepted == Replay(if since == 0 then had else [], events[since..k], up.expected)
  }

  lemma FedFirst(events: seq<Event>, up: Upload, accepted: seq<byte>, maxUpload: nat)
    ensures Fed(events, 0, 0, up, accepted, up.open, accepted, maxUpload)
  {
    assert events[0..0] == [];
  }

  lemma FedNext(events: seq<Event>, since: nat, k: nat, was: Upload, had: seq<byte>, up: Upload, accepted: seq<byte>,
                wasOpen: bool, first: seq<byte>, maxUpload: nat)
    requires k < |events| && Fed(events, since, k, was, had, wasOpen, first, maxUpload)
    requires up.open && !was.open ==> Begins(events[k], up.name, maxUpload) && accepted == []
    requires up.open && was.open ==>
               up.name == was.name && up.expected == was.expected && accepted == Taken(had, events[k], up.expected)
    ensures Fed(events, if was.open then since else k + 1, k + 1, up, accepted, wasOpen, first, maxUpload)
  {
    hide Begins, Taken;
    if up.open {
      if was.open {
        assert events[since..k + 1] == events[since..k] + [events[k]];
        ReplayNext(if since == 0 then first else [], events[since..k], events[k], up.expected);
      } else {
        assert events[k + 1..k + 1] == [];
      }
    }
  }

  lemma FedLast(events: seq<Event>, since: nat, up: Upload, accepted: seq<byte>, wasOpen: bool, first: seq<byte>, maxUpload: nat)
    requires up.open && Fed(events, since, |events|, up, accepted, wasOpen, first, maxUpload)
    ensures (wasOpen && accepted == Replay(first, events, up.expected))
            || exists i :: 0 <= i < |events| && Begins(events[i], up.name, maxUpload)
                           && accepted == Replay([], events[i + 1..], up.expected)
  {
    hide Begins, Replay;
    assert events[since..|events|] == events[since..] && (since == 0 ==> events[since..] == events);
    if since > 0 {
      var i := since - 1;
      assert Begins(events[i], up.name, maxUpload) && accepted == Replay([], events[i + 1..], up.expected);
    }
  }

  lemma GoingFirst(events: seq<Event>, n: string)
    ensures Undisturbed(events, 0, n) ==> Going(events, 0, 0, n)
  {
    hide Undisturbed;
  }

  lemma GoingNext(events: seq<Event>, since: nat, k: nat, was: Upload, up: Upload, again: bool, reopened: bool, maxUpload: nat)
    requires k < |events| && NoneReopened(events, maxUpload) && (was.open ==> Going(events, since, k, was.name) && !again)
    requires up.open && !was.open ==> !reopened && Begins(events[k], up.name, maxUpload)
    requires up.open && was.open ==>
               up.name == was.name && !Ends(events[k]) && (reopened ==> again || Opens(events[k], up.name))
    ensures up.open ==> Going(events, if was.open then since else k + 1, k + 1, up.name) && !reopened
  {
    hide Begins, Ends, Opens;
  }

  lemma ReplayNext(acc: seq<byte>, events: seq<Event>, e: Event, total: nat)
    ensures Replay(acc, events + [e], total) == Taken(Replay(acc, events, total), e, total)
  {
    hide Taken;
    assert (events + [e])[..|events|] == events;
  }

  // The upload of n that started before event since is still open before event k.
  ghost predicate Going(events: seq<Event>, since: nat, k: nat, n: string) {
    since <= k <= |events| && Undisturbed(events, since, n) && forall l :: since <= l < k ==> !Ends(events[l])
  }

  // When the open archive is still the installed file after a replacement.
  lemma FinishActive(before: Dir, after: Dir, name: string, ca: Active, active: string)
    requires OthersKept(before, after, name) && InstalledIn(before, ca, active)
    ensures !(ca.FromFile? && SameName(active, name)) ==> InstalledIn(after, ca, active)
    ensures ca.FromFile? && SameName(active, name) ==>
              && Lookup(before, PathFor(name)) == Some(ca.data)
              && (InstalledIn(after, ca, active) <==> Lookup(after, PathFor(name)) == Some(ca.data))
  {
    hide Lookup, SameName, OthersKept;
    FinishFrame(before, after, name, active);
  }

  // What a replacement leaves at the pack paths.
  lemma FinishPacksOk(before: Dir, after: Dir, name: string)
    requires OthersKept(before, after, name)
    requires var now := Lookup(after, PathFor(name));
             now == Lookup(before, PathFor(name)) || now.None? || PackOk(now.value).Some?
    ensures AllPacksOk(before) ==> AllPacksOk(after)
  {
    hide Lookup, SameName, PackOk;
    forall n ensures Lookup(after, PathFor(n)) == Lookup(before, PathFor(n))
                     || Lookup(after, PathFor(n)) == Lookup(after, PathFor(name))
    {
      FinishFrame(before, after, name, n);
    }
  }

  // Deleting a pack keeps the temporary file and every other pack.
  lemma DeletePacksOk(d: Dir, name: string)
    ensures Lookup(Delete(d, PathFor(name)), TEMP) == Lookup(d, TEMP)
    ensures AllPacksOk(d) ==> AllPacksOk(Delete(d, PathFor(name)))
  {
    hide Lookup, SameName, Delete, PackOk;
    PackPathIsNotWork(name);
    forall n ensures Lookup(Delete(d, PathFor(name)), n) == if SameName(PathFor(name), n) then None else Lookup(d, n) {
      LookupDelete(d, PathFor(name), n);
    }
  }

  lemma ItemReplyHead()
    ensures forall index: nat, it :: index < 0x1_0000 ==> |ItemReply(index, it)| >= 2 && ItemReply(index, it)[0] == PACK_AT
  {}

  // At most one archive has been put in service, and the history is kept.
  ghost predicate Follows(a: map<nat, Active>, b: map<nat, Active>, loads: nat, now: nat) {
    Extends(a, b) && loads <= now <= loads + 1
  }

  // State i of a log was seen after at[i] loads.
  ghost predicate LogOk(log: seq<(nat, Active)>, at: seq<nat>, served: map<nat, Active>) {
    && |at| == |log|
    && (forall i :: 0 <= i < |log| ==>
          log[i].0 == Wrap32(at[i]) && (log[i].1.NoArchive? || (at[i] in served && served[at[i]] == log[i].1)))
    && (forall i, j :: 0 <= i <= j < |at| ==> at[i] <= at[j] <= at[i] + (j - i))
  }

  lemma LogGrows(log: seq<(nat, Active)>, at: seq<nat>, a: map<nat, Active>, b: map<nat, Active>, now: nat, ca: Active)
    requires LogOk(log, at, a) && |log| > 0 && Follows(a, b, at[|at| - 1], now)
    requires ca.NoArchive? || (now in b && b[now] == ca)
    ensures LogOk(log + [(Wrap32(now), ca)], at + [now], b)
  {
    hide Wrap32;
    var at' := at + [now];
    forall i, j | 0 <= i <= j < |at'| ensures at'[i] <= at'[j] <= at'[i] + (j - i) {
      assert i < |at| ==> at[i] <= at[|at| - 1] <= at[i] + (|at| - 1 - i);
    }
  }

  // Fewer than 2^32 events apart, equal generations mean the same archive.
  lemma LogTells(log: seq<(nat, Active)>, at: seq<nat>, served: map<nat, Active>)
    requires LogOk(log, at, served)
    ensures forall i, j :: 0 <= i <= j < |log| && j - i < U32 ==>
              log[i].0 == log[j].0 && !log[i].1.NoArchive? && !log[j].1.NoArchive? ==> log[i].1 == log[j].1
  {
    hide Wrap32;
    forall i, j | 0 <= i <= j < |log| && j - i < U32 && log[i].0 == log[j].0 ensures at[i] == at[j] {
      SameGeneration(at[i], at[j]);
    }
  }

  lemma SamePacksSelf(d: Dir)
    ensures SamePacks(d, d)
  {}

  lemma PutIsTemp(d: Dir, data: seq<byte>)
    ensures SamePacks(d, Put(d, TEMP, data))
  {
    hide Lookup, Fold, Put;
    forall n | !SameName(TEMP, n) ensures Lookup(Put(d, TEMP, data), n) == Lookup(d, n) {
      LookupPut(d, TEMP, data, n);
    }
  }

  lemma CrcNothing()
    ensures Crc([]) == 0
  {
    ExtendNothing(0);
  }

  lemma CrcGrows(a: seq<byte>, b: seq<byte>)
    ensures Extend(Crc(a), b) == Crc(a + b)
  {
    ExtendConcat(0, a, b);
  }

  const NO_FAULTS := FinishFaults(false, false, false, false, false, false, false, false, false)

  // A client that announces a pack and sends it in order, in pieces of any size,
  // gets exactly those bytes installed and listed, provided they are a valid pack.
  // Each message goes the way of every event.
  method SendPack(ble: Ble, name: string, data: seq<byte>, piece: nat, env: Env)
    requires ble.Valid() && !ble.up.open && env.locked
    requires SafeName(name) && 0 < |data| <= ble.maxUpload && |data| < U32 && |data| <= env.installable
    requires 1 <= piece <= MESSAGE_MAX - 4 && env.written >= piece && !env.open && env.finish == NO_FAULTS
    modifies ble, ble.store
    ensures ble.Valid() && !ble.up.open
    ensures !old(ble.stale) ==> !ble.stale && ble.store.ActiveIsInstalled()
    ensures PackOk(data).Some? ==>
              && Lookup(ble.store.files, PathFor(name)) == Some(data) && File(PathFor(name), data) in ble.store.files
              && ble.response == [COMMIT, OK] + Le32(Wrap32(PackOk(data).value.index.count))
    ensures PackOk(data).None? ==>
              && Lookup(ble.store.files, PathFor(name)) == Lookup(old(ble.store.files), PathFor(name))
              && ble.response == [COMMIT, INVALID_PACK]
  {
    hide Scan, PackOk, Lookup, SameName, SafeName, Store.Valid, InstalledIn, AllPacksOk, Crc, Le32, Rd32, FinishWorks, OldKept,
         OthersKept, Ble.GoesStale;
    PackPathIsNotWork(name);
    SendAll(ble, name, data, piece, env);
    NoFaultWorks(ble.store.files, name, data);
    ghost var staged := ble.store.files;
    ble.Step(Control([COMMIT], env));
    NoFaultKept(staged, ble.store.files, name);
  }

  // The pack shows in the list afterwards, with its name, count and length.
  method SendAndList(ble: Ble, name: string, data: seq<byte>, piece: nat, env: Env) returns (n: int, items: seq<Item>)
    requires ble.Valid() && !ble.up.open && env.locked
    requires SafeName(name) && 0 < |data| <= ble.maxUpload && |data| < U32 && |data| <= env.installable
    requires 1 <= piece <= MESSAGE_MAX - 4 && env.written >= piece && !env.open && env.finish == NO_FAULTS
    requires PackOk(data).Some? && !SameName(name, BUILTIN)
    modifies ble, ble.store
    ensures n >= 0 ==> Item(name, PackOk(data).value.index.count, |data|) in items
    ensures !env.scan && !env.alloc && !env.rescan && Scan(ble.store.files).Some? ==> n >= 0
  {
    hide Scan, PackOk, Lookup, SameName, SafeName, Store.Valid, InstalledIn, UploadOk, ListItem;
    SendPack(ble, name, data, piece, env);
    n, items := ble.store.ListAll(env.scan, env.alloc, env.rescan);
    if n >= 0 {
      ListedAs(name, data);
      ScanHas(ble.store.files, File(PathFor(name), data));
    }
  }

  lemma ListedAs(name: string, data: seq<byte>)
    requires SafeName(name) && !SameName(name, BUILTIN) && PackOk(data).Some? && |data| < U32
    ensures ListItem(File(PathFor(name), data)) == Some(Item(name, PackOk(data).value.index.count, |data|))
  {
    hide PackOk, SafeChar, SameName;
    var path := PathFor(name);
    assert path[..|path| - 4] == name && path[|path| - 4..] == SUFFIX;
  }

  // The announcement and the data messages.
  method SendAll(ble: Ble, name: string, data: seq<byte>, piece: nat, env: Env)
    requires ble.Valid() && !ble.up.open && env.locked
    requires SafeName(name) && 0 < |data| <= ble.maxUpload && |data| < U32 && |data| <= env.installable
    requires 1 <= piece <= MESSAGE_MAX - 4 && env.written >= piece && !env.open
    modifies ble, ble.store
    ensures ble.Valid() && ble.accepted == data && !ble.reopened && ble.stale == old(ble.stale)
    ensures ble.up == Upload(true, name, |data|, |data|, CrcValue(data), Crc(data)) && Complete(ble.up)
    ensures Lookup(ble.store.files, TEMP) == Some(data) && SamePacks(old(ble.store.files), ble.store.files)
  {
    Announce(ble, name, data, env);
    hide Scan, PackOk, Lookup, SameName, SafeName, Store.Valid, InstalledIn, AllPacksOk, Crc, Le32, Rd32;
    SendPieces(ble, data, piece, env);
  }

  method Announce(ble: Ble, name: string, data: seq<byte>, env: Env)
    requires ble.Valid() && !ble.up.open && env.locked && !env.open
    requires SafeName(name) && 0 < |data| <= ble.maxUpload && |data| < U32 && |data| <= env.installable
    modifies ble, ble.store
    ensures ble.Valid() && ble.accepted == [] && !ble.reopened && ble.stale == old(ble.stale)
    ensures ble.up == Upload(true, name, |data|, 0, CrcValue(data), 0) && ble.response == [BEGIN, OK] + Le32(0)
    ensures Lookup(ble.store.files, TEMP) == Some([]) && SamePacks(old(ble.store.files), ble.store.files)
  {
    assert |name| <= NAME_MAX;
    hide Scan, PackOk, Lookup, SameName, SafeName, Store.Valid, InstalledIn, AllPacksOk, Crc, Le32, Rd32, EncodeBegin, ParseBegin,
         Complete;
    var announced := Announcement(|data|, CrcValue(data), name);
    BeginRoundTrip(announced);
    ble.Step(Control(EncodeBegin(announced), env));
  }

  // The data messages of one upload.
  method SendPieces(ble: Ble, data: seq<byte>, piece: nat, env: Env)
    requires ble.Valid() && ble.up.open && ble.accepted == [] && ble.up.expected == |data| < U32
    requires ble.up == ble.up.(received := 0, crc := 0)
    requires 1 <= piece <= MESSAGE_MAX - 4 && env.written >= piece
    modifies ble, ble.store
    ensures ble.Valid() && ble.accepted == data && ble.reopened == old(ble.reopened) && ble.stale == old(ble.stale)
    ensures ble.up == old(ble.up).(received := |data|, crc := Crc(data))
    ensures Lookup(ble.store.files, TEMP) == Some(data) && SamePacks(old(ble.store.files), ble.store.files)
    ensures ble.store.ca == old(ble.store.ca) && ble.store.activeName == old(ble.store.activeName)
  {
    hide Scan, PackOk, Lookup, SameName, SafeName, Store.Valid, InstalledIn, Crc, Rd32, EncodeData, AllPacksOk, Complete, UploadOk;
    ghost var before := ble.store.files;
    var sent := 0;
    CrcNothing();
    SamePacksSelf(before);
    ble.OpenTemp();
    while sent < |data|
      invariant ble.Valid() && sent <= |data| && ble.accepted == data[..sent]
      invariant ble.up == old(ble.up).(received := sent, crc := Crc(data[..sent]))
      invariant ble.reopened == old(ble.reopened) && ble.stale == old(ble.stale)
      invariant ble.store.ca == old(ble.store.ca) && ble.store.activeName == old(ble.store.activeName)
      invariant SamePacks(before, ble.store.files) && Lookup(ble.store.files, TEMP) == Some(data[..sent])
    {
      var next := if sent + piece <= |data| then sent + piece else |data|;
      DataMessage(sent, data[sent..next]);
      ble.Step(Data(EncodeData(sent, data[sent..next]), env));
      assert data[..sent] + data[sent..next] == data[..next];
      sent := next;
    }
    assert data[..|data|] == data;
  }

  // Why the archive can go stale: a client that replaces the built-in library's
  // installed copy and asks for library 0 meanwhile opens the file that is to be
  // moved away. If the file system refuses to move an open file, the upload
  // fails. If it does not, the old bytes stay in service, unless they are the
  // ones installed again.
  method ReplaceReopened(ble: Ble, data: seq<byte>, piece: nat, env: Env)
    requires ble.Valid() && !ble.up.open && !ble.stale && env.locked
    requires Lookup(ble.store.files, PathFor(BUILTIN)).Some? && PackOk(Lookup(ble.store.files, PathFor(BUILTIN)).value).Some?
    requires 0 < |data| <= ble.maxUpload && |data| < U32 && |data| <= env.installable && PackOk(data).Some?
    requires 1 <= piece <= MESSAGE_MAX - 4 && env.written >= piece && !env.open && !env.load
    requires env.finish == NO_FAULTS.(renameOld := env.finish.renameOld)
    modifies ble, ble.store
    ensures ble.Valid()
    ensures ble.store.ca.FromFile? && Some(ble.store.ca.data) == Lookup(old(ble.store.files), PathFor(BUILTIN))
    ensures env.finish.renameOld ==>
              && ble.response == [COMMIT, INVALID_PACK] && ble.store.ActiveIsInstalled()
              && Lookup(ble.store.files, PathFor(BUILTIN)) == Lookup(old(ble.store.files), PathFor(BUILTIN))
    ensures !env.finish.renameOld ==>
              && Lookup(ble.store.files, PathFor(BUILTIN)) == Some(data)
              && (ble.store.ActiveIsInstalled() <==> Some(data) == Lookup(old(ble.store.files), PathFor(BUILTIN)))
  {
    SafeBuiltin();
    hide Scan, PackOk, Lookup, SameName, SafeName, Store.Valid, AllPacksOk, Crc, Le32, Rd32, ParseBegin, FinishWorks, ItemReply,
         InstalledIn, OthersKept, UploadOk;
    PackPathIsNotWork(BUILTIN);
    Announce(ble, BUILTIN, data, env);
    AskForBuiltin();
    ble.Step(Control([PACK_AT, 0, 0], env));
    SendPieces(ble, data, piece, env);
    RenameDecides(ble.store.files, BUILTIN, data, env.finish);
    ble.Step(Control([COMMIT], env));
  }

  lemma AskForBuiltin()
    ensures Rd16([PACK_AT, 0, 0], 1) == 0
  {}

  lemma RenameDecides(d: Dir, name: string, data: seq<byte>, f: FinishFaults)
    requires Lookup(d, TEMP) == Some(data) && PackOk(data).Some? && Lookup(d, PathFor(name)).Some?
    requires f == NO_FAULTS.(renameOld := f.renameOld)
    ensures FinishWorks(d, name, f) <==> !f.renameOld
  {}

  lemma SafeBuiltin()
    ensures SafeName(BUILTIN) && IsBuiltin(BUILTIN) && |BUILTIN| <= NAME_MAX
  {}

  lemma NoFaultKept(before: Dir, after: Dir, name: string)
    ensures OldKept(before, after, name, NO_FAULTS) ==> Lookup(after, PathFor(name)) == Lookup(before, PathFor(name))
  {
    hide Lookup, PackOk;
  }

  lemma NoFaultWorks(d: Dir, name: string, data: seq<byte>)
    requires Lookup(d, TEMP) == Some(data)
    ensures FinishWorks(d, name, NO_FAULTS) <==> PackOk(data).Some?
  {}

  lemma DataMessage(offset: nat, chunk: seq<byte>)
    requires offset < U32
    ensures |EncodeData(offset, chunk)| == 4 + |chunk|
    ensures Rd32(EncodeData(offset, chunk), 0) == offset && EncodeData(offset, chunk)[4..] == chunk
  {
    hide Le32, Rd32;
    var body := EncodeData(offset, chunk);
    assert body[0..4] == Le32(offset);
    Rd32Of(body, 0, Le32(offset));
  }
}
