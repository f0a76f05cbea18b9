/** Whole runs of the directory server, beside a record of what the operations said: who connected from
    where, under which number each registered and what each shared. The record never looks at the server's
    tables, except to see whether there is room. */
module DirectoryRuns {
  import opened Protocol
  import opened CStrings
  import opened Registry

  /** What is known of the connection in a slot: whether it is registered and not yet removed, its number
      among all registrations, where it connected from and the port it registered. */
  datatype Peer = Peer(live: bool, id: nat, ip: Word32, port: Word16)

  /** What was shared, by which registration, and the endpoint of that client. */
  datatype Record = Record(offer: Offer, owner: nat, ip: Word32, port: Word16)

  /** `shared[n]` is the file with id `n + 1`. */
  datatype World = World(d: Directory, peers: seq<Peer>, registered: nat, shared: seq<Record>)

  datatype Op =
    | ConnectOp(fd: int, ip: Word32)
    | RegisterOp(slot: nat, port: Word16)
    | ShareOp(slot: nat, offer: Offer)
    | RemoveOp(slot: nat)

  ghost function Start(): World {
    World(Empty(), seq(256, _ => Peer(false, 0, 0, 0)), 0, [])
  }

  /** Connections register once, share only after that unless the table is full, and the id counters do not
      wrap. */
  ghost predicate Allowed(w: World, op: Op) {
    |w.peers| == 256 &&
    match op
    case ConnectOp(_, _) => true
    case RegisterOp(i, _) => i < |w.d.clients| == |w.peers| && !w.d.clients[i].active && w.d.nextClientId < TWO_32 - 1
    case ShareOp(i, _) =>
      && i < |w.d.clients| == |w.peers|
      && (|w.d.files| == MAX_FILES || (w.d.clients[i].active && w.d.nextFileId < TWO_32 - 1))
    case RemoveOp(i) => i < |w.d.clients| == |w.peers|
  }

  /** `i` is the slot that the next connection takes. */
  ghost predicate IsIdle(peers: seq<Peer>, i: nat) {
    i < |peers| && !peers[i].live && forall j :: 0 <= j < i ==> peers[j].live
  }

  /** What each operation does to the record. */
  ghost predicate Recorded(w: World, op: Op, v: World)
    requires Allowed(w, op)
  {
    match op
    case ConnectOp(_, ip) =>
      && v == w.(d := v.d, peers := v.peers)
      && if i: nat :| IsIdle(w.peers, i) then v.peers == w.peers[i := w.peers[i].(ip := ip)] else v.peers == w.peers
    case RegisterOp(i, port) =>
      v == World(v.d, w.peers[i := Peer(true, w.registered + 1, w.peers[i].ip, port)], w.registered + 1, w.shared)
    case ShareOp(i, offer) =>
      if |w.d.files| < 1024
      then v == w.(d := v.d, shared := w.shared + [Record(offer, w.peers[i].id, w.peers[i].ip, w.peers[i].port)])
      else v == w.(d := v.d)
    case RemoveOp(i) =>
      v == w.(d := v.d, peers := w.peers[i := w.peers[i].(live := false)])
  }

  ghost function Served(d: Directory, op: Op): Directory
    requires op.ConnectOp? || op.slot < |d.clients|
  {
    match op
    case ConnectOp(fd, ip) => Connect(d, fd, ip)
    case RegisterOp(i, port) => Register(d, i, port)
    case ShareOp(i, offer) => Share(d, i, offer)
    case RemoveOp(i) => Remove(d, i)
  }

  ghost predicate Follows(w: World, op: Op, v: World) {
    Allowed(w, op) && v.d == Served(w.d, op) && Recorded(w, op, v)
  }

  ghost predicate IsRun(worlds: seq<World>, ops: seq<Op>) {
    && |worlds| == |ops| + 1
    && worlds[0] == Start()
    && forall i :: 0 <= i < |ops| ==> Follows(worlds[i], ops[i], worlds[i + 1])
  }

  /** The slot holds what was recorded of its connection. */
  ghost predicate Agrees(c: Client, p: Peer) {
    c.active == p.live && c.id == p.id && c.ip == p.ip && c.udpPort == p.port
  }

  ghost predicate Tables(w: World) {
    && Inv(w.d) && |w.peers| == |w.d.clients|
    && w.d.nextClientId == w.registered + 1 && w.d.nextFileId == |w.shared| + 1
    && forall i :: 0 <= i < |w.peers| ==> Agrees(w.d.clients[i], w.peers[i])
  }

  /** Registration `id` is still connected. */
  ghost predicate Live(peers: seq<Peer>, id: nat) {
    exists i :: 0 <= i < |peers| && peers[i].live && peers[i].id == id
  }

  /** `f` is what was offered, under this id. */
  ghost predicate Stores(f: SharedFile, id: nat, s: Record) {
    && f.id == id && f.size == s.offer.size && f.hash == s.offer.hash
    && Text(f.name) == s.offer.name[..Min(StrLen(s.offer.name), 255)]
    && f.owner == s.owner
  }

  ghost predicate Listed(files: seq<SharedFile>, id: nat) {
    exists k :: 0 <= k < |files| && files[k].id == id
  }

  /** A listed file is one that was shared. */
  ghost predicate Genuine(w: World, f: SharedFile) {
    1 <= f.id <= |w.shared| && Stores(f, f.id, w.shared[f.id - 1])
  }

  /** A file stays listed while its owner is connected, which is then where it was. */
  ghost predicate Kept(w: World, n: nat)
    requires n < |w.shared|
  {
    && w.shared[n].owner <= w.registered
    && (forall i :: 0 <= i < |w.peers| && w.peers[i].live && w.peers[i].id == w.shared[n].owner ==>
          w.peers[i].ip == w.shared[n].ip && w.peers[i].port == w.shared[n].port)
    && (Live(w.peers, w.shared[n].owner) ==> Listed(w.d.files, n + 1))
  }

  ghost predicate WorldInv(w: World) {
    && Tables(w)
    && (forall k :: 0 <= k < |w.d.files| ==> Genuine(w, w.d.files[k]))
    && (forall n :: 0 <= n < |w.shared| ==> Kept(w, n))
  }

  lemma StartInv()
    ensures WorldInv(Start())
  {
    EmptyInv();
  }

  /** The server's choice of a slot is the recorded one. */
  lemma SlotTaken(w: World)
    requires Tables(w)
    ensures var n := FreeSlot(w.d.clients, 0);
            if n < |w.d.clients| then IsIdle(w.peers, n) else forall i: nat :: !IsIdle(w.peers, i)
  {
    hide Inv;
    assert forall j :: 0 <= j < |w.peers| ==> Agrees(w.d.clients[j], w.peers[j]);
  }

  lemma ConnectTables(w: World, op: Op, v: World)
    requires Tables(w) && Follows(w, op, v) && op.ConnectOp?
    ensures Tables(v)
    ensures |v.peers| == |w.peers| && v.d.files == w.d.files && v.shared == w.shared && v.registered == w.registered
    ensures forall j :: 0 <= j < |v.peers| && v.peers[j].live ==> v.peers[j] == w.peers[j]
    ensures forall j :: 0 <= j < |v.peers| && w.peers[j].live ==> v.peers[j] == w.peers[j]
  {
    hide Inv;
    ConnectInv(w.d, op.fd, op.ip);
    assert forall j :: 0 <= j < |w.peers| ==> Agrees(w.d.clients[j], w.peers[j]);
    SlotTaken(w);
    OneIdle(w.peers);
  }

  lemma OneIdle(peers: seq<Peer>)
    ensures forall i: nat, j: nat :: IsIdle(peers, i) && IsIdle(peers, j) ==> i == j
  {
  }

  lemma RegisterTables(w: World, op: Op, v: World)
    requires Tables(w) && Follows(w, op, v) && op.RegisterOp?
    ensures Tables(v) && v.d.files == w.d.files
  {
    hide Inv;
    RegisterExactly(w.d, op.slot, op.port);
    assert forall j :: 0 <= j < |w.peers| ==> Agrees(w.d.clients[j], w.peers[j]);
  }

  lemma ShareTables(w: World, op: Op, v: World)
    requires Tables(w) && Follows(w, op, v) && op.ShareOp?
    ensures Tables(v) && v.peers == w.peers
  {
    hide Inv;
    ShareExactly(w.d, op.slot, op.offer);
    AtMostFull(w.d);
  }

  lemma AtMostFull(d: Directory)
    requires Inv(d)
    ensures |d.files| <= 1024
  {
  }

  lemma RemoveTables(w: World, op: Op, v: World)
    requires Tables(w) && Follows(w, op, v) && op.RemoveOp?
    ensures Tables(v)
  {
    hide Inv, Without;
    RemoveInv(w.d, op.slot);
    assert forall j :: 0 <= j < |w.peers| ==> Agrees(w.d.clients[j], w.peers[j]);
  }

  /** No two live connections have the same number. */
  lemma OneOwner(w: World, i: nat, j: nat)
    requires Tables(w) && i < |w.peers| && j < |w.peers| && w.peers[i].live && w.peers[i].id == w.peers[j].id
    ensures i == j && 1 <= w.peers[i].id <= w.registered
  {
    assert Agrees(w.d.clients[i], w.peers[i]) && Agrees(w.d.clients[j], w.peers[j]);
    assert w.d.clients[i].id < w.d.nextClientId;
  }

  lemma ConnectKeeps(w: World, op: Op, v: World)
    requires WorldInv(w) && Follows(w, op, v) && op.ConnectOp?
    ensures WorldInv(v)
  {
    hide Inv, Follows, Stores;
    ConnectTables(w, op, v);
    forall n | 0 <= n < |v.shared| ensures Kept(v, n) {
      assert Kept(w, n);
    }
    assert forall k :: 0 <= k < |w.d.files| ==> Genuine(w, w.d.files[k]);
  }

  lemma RegisterKeeps(w: World, op: Op, v: World)
    requires WorldInv(w) && Follows(w, op, v) && op.RegisterOp?
    ensures WorldInv(v)
  {
    hide Inv, Stores, Register;
    RegisterTables(w, op, v);
    forall n | 0 <= n < |v.shared| ensures Kept(v, n) {
      assert Kept(w, n);
    }
    assert forall k :: 0 <= k < |w.d.files| ==> Genuine(w, w.d.files[k]);
  }

  lemma EntryStores(w: World, i: nat, offer: Offer)
    requires Tables(w) && i < |w.d.clients|
    ensures Stores(Entry(w.d, i, offer), |w.shared| + 1,
                   Record(offer, w.peers[i].id, w.peers[i].ip, w.peers[i].port))
    ensures w.peers[i].id <= w.registered
  {
    hide StrLen;
    assert Agrees(w.d.clients[i], w.peers[i]);
    assert w.d.clients[i].id < w.d.nextClientId;
  }

  lemma ShareKeeps(w: World, op: Op, v: World)
    requires WorldInv(w) && Follows(w, op, v) && op.ShareOp?
    ensures WorldInv(v)
  {
    hide Inv, Stores, Tables, Entry;
    assert Inv(w.d) by { TablesInv(w); }
    ShareTables(w, op, v);
    AtMostFull(w.d);
    if |w.d.files| < 1024 {
      var i, f := op.slot, Entry(w.d, op.slot, op.offer);
      EntryStores(w, i, op.offer);
      assert f.id == |w.shared| + 1 by { IdStored(f, |w.shared| + 1, v.shared[|w.shared|]); }
      assert v.d.files == w.d.files + [f];
      forall k | 0 <= k < |v.d.files| ensures Genuine(v, v.d.files[k]) {
        assert k < |w.d.files| ==> Genuine(w, w.d.files[k]);
      }
      forall n | 0 <= n < |v.shared| ensures Kept(v, n) {
        if n < |w.shared| {
          assert Kept(w, n);
          StillListed(w.d.files, f, n + 1);
        } else {
          assert v.d.files[|w.d.files|] == f;
          SharerHere(w, i);
        }
      }
    } else {
      assert v.d == w.d;
      assert forall n :: 0 <= n < |w.shared| ==> Kept(w, n);
    }
  }

  lemma TablesInv(w: World)
    requires Tables(w)
    ensures Inv(w.d)
  {
  }

  lemma IdStored(f: SharedFile, id: nat, s: Record)
    requires Stores(f, id, s)
    ensures f.id == id
  {
  }

  lemma StillListed(files: seq<SharedFile>, f: SharedFile, id: nat)
    ensures Listed(files, id) ==> Listed(files + [f], id)
  {
    if k :| 0 <= k < |files| && files[k].id == id {
      assert (files + [f])[k].id == id;
    }
  }

  lemma SharerHere(w: World, i: nat)
    requires Tables(w) && i < |w.peers| && |w.d.files| < 1024
    ensures forall j :: 0 <= j < |w.peers| && w.peers[j].live && w.peers[j].id == w.peers[i].id ==> j == i
  {
    forall j | 0 <= j < |w.peers| && w.peers[j].live && w.peers[j].id == w.peers[i].id ensures j == i {
      OneOwner(w, j, i);
    }
  }

  lemma RemoveKeeps(w: World, op: Op, v: World)
    requires WorldInv(w) && Follows(w, op, v) && op.RemoveOp?
    ensures WorldInv(v)
  {
    hide Inv, Stores, Tables, Without;
    RemoveTables(w, op, v);
    forall k | 0 <= k < |v.d.files| ensures Genuine(v, v.d.files[k]) {
      RemovedOnly(w.d, op.slot, v.d.files[k]);
      var m :| 0 <= m < |w.d.files| && w.d.files[m] == v.d.files[k];
      assert Genuine(w, w.d.files[m]);
    }
    forall n | 0 <= n < |v.shared| ensures Kept(v, n) {
      RemovalKeeps(w, op.slot, v, n);
    }
  }

  lemma RemovedOnly(d: Directory, i: nat, f: SharedFile)
    requires i < |d.clients|
    ensures f in Remove(d, i).files <==> f in d.files && !(d.clients[i].active && f.owner == d.clients[i].id)
  {
    WithoutMembers(d.files, d.clients[i].id, f);
  }

  lemma RemovalKeeps(w: World, i: nat, v: World, n: nat)
    requires WorldInv(w) && Follows(w, RemoveOp(i), v) && n < |w.shared|
    ensures Kept(v, n)
  {
    hide Inv, Stores, Without, Remove;
    assert Kept(w, n);
    if j :| 0 <= j < |v.peers| && v.peers[j].live && v.peers[j].id == v.shared[n].owner {
      assert Live(w.peers, w.shared[n].owner) by { assert w.peers[j].live; }
      var k :| 0 <= k < |w.d.files| && w.d.files[k].id == n + 1;
      var f := w.d.files[k];
      assert Genuine(w, f);
      assert f.owner == w.shared[n].owner by { OwnerStored(f, n + 1, w.shared[n]); }
      if w.d.clients[i].active && f.owner == w.d.clients[i].id {
        assert Agrees(w.d.clients[i], w.peers[i]);
        OneOwner(w, i, j);
      }
      RemovedOnly(w.d, i, f);
      assert f in v.d.files;
    }
  }

  lemma OwnerStored(f: SharedFile, id: nat, s: Record)
    requires Stores(f, id, s)
    ensures f.owner == s.owner
  {
  }

  lemma {:induction false} RunInv(worlds: seq<World>, ops: seq<Op>, i: nat)
    requires IsRun(worlds, ops) && i < |worlds|
    ensures WorldInv(worlds[i])
  {
    hide Follows, WorldInv, Start;
    if i == 0 {
      StartInv();
    } else {
      RunInv(worlds, ops, i - 1);
      var w, op := worlds[i - 1], ops[i - 1];
      assert Follows(w, op, worlds[i]);
      match op
      case ConnectOp(_, _) => ConnectKeeps(w, op, worlds[i]);
      case RegisterOp(_, _) => RegisterKeeps(w, op, worlds[i]);
      case ShareOp(_, _) => ShareKeeps(w, op, worlds[i]);
      case RemoveOp(_) => RemoveKeeps(w, op, worlds[i]);
    }
  }

  /** In every run, a request for an id that was ever given out is answered, as long as the client that
      shared under it is connected, with the size, hash and name that were offered and the endpoint that
      client connected from and registered; after that, and for every other id, with "not found". */
  lemma RequestReturnsWhatWasShared(worlds: seq<World>, ops: seq<Op>, i: nat, fileId: Word32)
    requires IsRun(worlds, ops) && i < |worlds|
    ensures var w, reply := worlds[i], Request(worlds[i].d, fileId);
            if 1 <= fileId <= |w.shared| && Live(w.peers, w.shared[fileId - 1].owner) then
              var s := w.shared[fileId - 1];
              reply.Location? && Stores(reply.file, fileId, s) && reply.ip == s.ip && reply.port == s.port
            else reply == FileNotFound
  {
    hide IsRun, WorldInv;
    RunInv(worlds, ops, i);
    RequestIn(worlds[i], fileId);
  }

  lemma RequestIn(w: World, fileId: Word32)
    requires WorldInv(w)
    ensures var reply := Request(w.d, fileId);
            if 1 <= fileId <= |w.shared| && Live(w.peers, w.shared[fileId - 1].owner) then
              var s := w.shared[fileId - 1];
              reply.Location? && Stores(reply.file, fileId, s) && reply.ip == s.ip && reply.port == s.port
            else reply == FileNotFound
  {
    hide Request, Stores, Tables;
    assert Inv(w.d) by { TablesInv(w); }
    RequestServed(w.d, fileId);
    if k :| 0 <= k < |w.d.files| && w.d.files[k].id == fileId {
      ListedOwner(w, k);
    } else if 1 <= fileId <= |w.shared| {
      assert Kept(w, fileId - 1);
    }
  }

  /** A listed file's owner is connected, where it was when it shared the file. */
  lemma ListedOwner(w: World, k: nat)
    requires WorldInv(w) && k < |w.d.files|
    ensures Genuine(w, w.d.files[k]) && Live(w.peers, w.shared[w.d.files[k].id - 1].owner)
    ensures exists o :: 0 <= o < |w.d.clients| && Owns(w.d.clients[o], w.d.files[k])
    ensures forall o :: 0 <= o < |w.d.clients| && Owns(w.d.clients[o], w.d.files[k]) ==>
              && w.d.clients[o].ip == w.shared[w.d.files[k].id - 1].ip
              && w.d.clients[o].udpPort == w.shared[w.d.files[k].id - 1].port
  {
    hide ClientsOk, FilesOk, ActiveCount, Stores;
    var f := w.d.files[k];
    assert Genuine(w, f) && HasOwner(w.d.clients, f) && Kept(w, f.id - 1);
    OwnerStored(f, f.id, w.shared[f.id - 1]);
    forall o | 0 <= o < |w.d.clients| && Owns(w.d.clients[o], f)
      ensures w.peers[o].live && w.peers[o].id == w.shared[f.id - 1].owner
      ensures w.d.clients[o].ip == w.shared[f.id - 1].ip && w.d.clients[o].udpPort == w.shared[f.id - 1].port
    {
      assert Agrees(w.d.clients[o], w.peers[o]);
    }
  }

  lemma GoneStep(w: World, op: Op, v: World, n: nat)
    requires WorldInv(w) && Follows(w, op, v) && n < |w.shared| && !Live(w.peers, w.shared[n].owner)
    ensures n < |v.shared| && v.shared[n] == w.shared[n] && !Live(v.peers, v.shared[n].owner)
  {
    hide Inv, Served, Stores;
    assert Kept(w, n);
    assert forall j :: 0 <= j < |v.peers| && v.peers[j].live ==>
      v.peers[j] == w.peers[j] || v.peers[j].id > w.registered;
  }

  /** A registration that has ended never comes back. */
  lemma {:induction false} StaysGone(worlds: seq<World>, ops: seq<Op>, i: nat, j: nat, n: nat)
    requires IsRun(worlds, ops) && i <= j < |worlds| && n < |worlds[i].shared|
    requires !Live(worlds[i].peers, worlds[i].shared[n].owner)
    ensures n < |worlds[j].shared| && worlds[j].shared[n] == worlds[i].shared[n]
    ensures !Live(worlds[j].peers, worlds[j].shared[n].owner)
  {
    hide Follows, WorldInv, Start, Live;
    if i < j {
      StaysGone(worlds, ops, i, j - 1, n);
      RunInv(worlds, ops, j - 1);
      assert Follows(worlds[j - 1], ops[j - 1], worlds[j]);
      GoneStep(worlds[j - 1], ops[j - 1], worlds[j], n);
    }
  }

  /** Once the client that shared a file is removed, every later request for it is answered with "not
      found". */
  lemma RemovedForGood(worlds: seq<World>, ops: seq<Op>, i: nat, j: nat, fileId: Word32)
    requires IsRun(worlds, ops) && i < j < |worlds| && ops[i].RemoveOp?
    requires ops[i].slot < |worlds[i].peers| && worlds[i].peers[ops[i].slot].live
    requires 1 <= fileId <= |worlds[i].shared|
    requires worlds[i].shared[fileId - 1].owner == worlds[i].peers[ops[i].slot].id
    ensures Request(worlds[j].d, fileId) == FileNotFound
  {
    hide Request, Follows, WorldInv, Start, Live;
    RunInv(worlds, ops, i);
    assert Follows(worlds[i], ops[i], worlds[i + 1]);
    OwnerRemoved(worlds[i], ops[i].slot, worlds[i + 1], fileId - 1);
    StaysGone(worlds, ops, i + 1, j, fileId - 1);
    RequestReturnsWhatWasShared(worlds, ops, j, fileId);
  }

  lemma OwnerRemoved(w: World, i: nat, v: World, n: nat)
    requires WorldInv(w) && Follows(w, RemoveOp(i), v) && n < |w.shared|
    requires w.peers[i].live && w.shared[n].owner == w.peers[i].id
    ensures n < |v.shared| && v.shared[n] == w.shared[n] && !Live(v.peers, v.shared[n].owner)
  {
    hide Inv, Served, Stores;
    if j :| 0 <= j < |v.peers| && v.peers[j].live && v.peers[j].id == w.shared[n].owner {
      OneOwner(w, i, j);
    }
  }
}
