/** The directory server's state as a value: what each request does to it, and what every sequence of
    requests keeps. */
module Registry {
  import opened Protocol
  import opened CStrings

  const MAX_CLIENTS: nat := 256
  const MAX_FILES: nat := 1024

  /** A connection slot; `id` outlives the connection until the slot is registered again. */
  datatype Client = Client(fd: int, id: Word32, ip: Word32, udpPort: Word16, active: bool)

  datatype SharedFile = SharedFile(id: Word32, size: Word32, hash: Hash, name: Name, owner: Word32)

  datatype Directory = Directory(clients: seq<Client>, files: seq<SharedFile>,
                                 nextClientId: Word32, nextFileId: Word32, numClients: int)

  /** What a share request carries; its name field may hold any bytes. */
  datatype Offer = Offer(size: Word32, hash: Hash, name: seq<Byte>)

  datatype Reply = FileNotFound | NoPeers | Location(file: SharedFile, ip: Word32, port: Word16)

  ghost function Empty(): Directory {
    Directory(seq(MAX_CLIENTS, _ => Client(0, 0, 0, 0, false)), [], 1, 1, 0)
  }

  /** The files not owned by `owner`, in their order. */
  function Without(files: seq<SharedFile>, owner: Word32): (r: seq<SharedFile>)
    ensures |r| <= |files|
  {
    if files == [] then []
    else
      var n := |files| - 1;
      Without(files[..n], owner) + if files[n].owner == owner then [] else [files[n]]
  }

  /** The first slot not in use, or `MAX_CLIENTS`. */
  function FreeSlot(clients: seq<Client>, from: nat): (i: nat)
    requires from <= |clients|
    ensures from <= i <= |clients|
    ensures i < |clients| ==> !clients[i].active
    ensures forall j :: from <= j < i ==> clients[j].active
    decreases |clients| - from
  {
    if from == |clients| || !clients[from].active then from else FreeSlot(clients, from + 1)
  }

  /** The first active client with this id, or `MAX_CLIENTS`. */
  function ClientSlot(clients: seq<Client>, id: Word32, from: nat): (i: nat)
    requires from <= |clients|
    ensures from <= i <= |clients|
    ensures i < |clients| ==> clients[i].active && clients[i].id == id
    ensures forall j :: from <= j < i ==> !(clients[j].active && clients[j].id == id)
    decreases |clients| - from
  {
    if from == |clients| || (clients[from].active && clients[from].id == id) then from
    else ClientSlot(clients, id, from + 1)
  }

  /** The slot whose messages are read when `fd` is ready, or `MAX_CLIENTS`. */
  function FdSlot(clients: seq<Client>, fd: int, from: nat): (i: nat)
    requires from <= |clients|
    ensures from <= i <= |clients|
    ensures i < |clients| ==> clients[i].fd == fd && clients[i].fd > 0
    ensures forall j :: from <= j < i ==> !(clients[j].fd == fd && clients[j].fd > 0)
    decreases |clients| - from
  {
    if from == |clients| || (clients[from].fd == fd && clients[from].fd > 0) then from
    else FdSlot(clients, fd, from + 1)
  }

  /** The first file with this id, or the number of files. */
  function FileSlot(files: seq<SharedFile>, id: Word32, from: nat): (i: nat)
    requires from <= |files|
    ensures from <= i <= |files|
    ensures i < |files| ==> files[i].id == id
    ensures forall j :: from <= j < i ==> files[j].id != id
    decreases |files| - from
  {
    if from == |files| || files[from].id == id then from else FileSlot(files, id, from + 1)
  }

  ghost function Connect(d: Directory, fd: int, ip: Word32): Directory {
    var i := FreeSlot(d.clients, 0);
    if i == |d.clients| then d
    else d.(clients := d.clients[i := d.clients[i].(fd := fd, ip := ip, active := false)])
  }

  ghost function Register(d: Directory, i: nat, port: Word16): Directory
    requires i < |d.clients|
  {
    d.(clients := d.clients[i := d.clients[i].(udpPort := port, id := d.nextClientId, active := true)],
       nextClientId := U32(d.nextClientId + 1),
       numClients := d.numClients + 1)
  }

  function Entry(d: Directory, i: nat, offer: Offer): SharedFile
    requires i < |d.clients|
  {
    SharedFile(d.nextFileId, offer.size, offer.hash, NameCopy(offer.name), d.clients[i].id)
  }

  ghost function Share(d: Directory, i: nat, offer: Offer): Directory
    requires i < |d.clients|
  {
    if |d.files| >= MAX_FILES then d
    else d.(files := d.files + [Entry(d, i, offer)], nextFileId := U32(d.nextFileId + 1))
  }

  ghost function Remove(d: Directory, i: nat): Directory
    requires i < |d.clients|
  {
    if !d.clients[i].active then d
    else
      d.(files := Without(d.files, d.clients[i].id),
         clients := d.clients[i := d.clients[i].(fd := -1, active := false)],
         numClients := d.numClients - 1)
  }

  function Request(d: Directory, fileId: Word32): Reply {
    var f := FileSlot(d.files, fileId, 0);
    if f == |d.files| then FileNotFound
    else
      var o := ClientSlot(d.clients, d.files[f].owner, 0);
      if o == |d.clients| then NoPeers
      else Location(d.files[f], d.clients[o].ip, d.clients[o].udpPort)
  }

  ghost function ActiveCount(clients: seq<Client>): nat {
    if clients == [] then 0
    else ActiveCount(clients[..|clients| - 1]) + if clients[|clients| - 1].active then 1 else 0
  }

  ghost predicate ClientsOk(clients: seq<Client>, nextId: Word32) {
    && |clients| == MAX_CLIENTS && 1 <= nextId
    && (forall i :: 0 <= i < |clients| ==> clients[i].id < nextId)
    && (forall i :: 0 <= i < |clients| && clients[i].active ==> clients[i].id > 0)
    && (forall i, j :: 0 <= i < j < |clients| && clients[i].id > 0 ==> clients[i].id != clients[j].id)
  }

  ghost predicate FilesOk(files: seq<SharedFile>, nextId: Word32) {
    && |files| <= MAX_FILES && 1 <= nextId
    && (forall k :: 0 <= k < |files| ==> files[k].id < nextId)
    && (forall j, k :: 0 <= j < k < |files| ==> files[j].id < files[k].id)
  }

  /** The client slot is in use by the owner of `f`. */
  ghost predicate Owns(c: Client, f: SharedFile) {
    c.active && c.id == f.owner
  }

  ghost predicate HasOwner(clients: seq<Client>, f: SharedFile) {
    exists i :: 0 <= i < |clients| && Owns(clients[i], f)
  }

  ghost predicate Inv(d: Directory) {
    && ClientsOk(d.clients, d.nextClientId)
    && FilesOk(d.files, d.nextFileId)
    && d.numClients == ActiveCount(d.clients)
    && forall k :: 0 <= k < |d.files| ==> HasOwner(d.clients, d.files[k])
  }

  /** Changing one slot changes the count of active slots by that slot alone. */
  lemma {:induction false} CountUpdate(clients: seq<Client>, i: nat, c: Client)
    requires i < |clients|
    ensures ActiveCount(clients[i := c])
            == ActiveCount(clients) + (if c.active then 1 else 0) - (if clients[i].active then 1 else 0)
  {
    var n := |clients| - 1;
    if i == n {
      assert clients[i := c][..n] == clients[..n];
    } else {
      CountUpdate(clients[..n], i, c);
      assert clients[i := c][..n] == clients[..n][i := c];
    }
  }

  lemma {:induction false} NoneActive(clients: seq<Client>)
    requires forall i :: 0 <= i < |clients| ==> !clients[i].active
    ensures ActiveCount(clients) == 0
  {
    if clients != [] {
      NoneActive(clients[..|clients| - 1]);
    }
  }

  lemma EmptyInv()
    ensures Inv(Empty())
  {
    NoneActive(Empty().clients);
  }

  lemma ConnectInv(d: Directory, fd: int, ip: Word32)
    requires Inv(d)
    ensures Inv(Connect(d, fd, ip))
  {
    var i := FreeSlot(d.clients, 0);
    if i < |d.clients| {
      var e := Connect(d, fd, ip);
      CountUpdate(d.clients, i, e.clients[i]);
      forall k | 0 <= k < |d.files| ensures HasOwner(e.clients, d.files[k]) {
        var j :| 0 <= j < |d.clients| && Owns(d.clients[j], d.files[k]);
        assert Owns(e.clients[j], d.files[k]);
      }
    }
  }

  /** A connection that has not registered does not hold its slot: the next one takes it over. */
  lemma ConnectTwice(d: Directory, fd1: int, ip1: Word32, fd2: int, ip2: Word32)
    ensures Connect(Connect(d, fd1, ip1), fd2, ip2) == Connect(d, fd2, ip2)
  {
    var i := FreeSlot(d.clients, 0);
    if i < |d.clients| {
      var e := Connect(d, fd1, ip1);
      assert !e.clients[i].active && forall j :: 0 <= j < i ==> e.clients[j] == d.clients[j];
      assert FreeSlot(e.clients, 0) == i;
      assert Connect(e, fd2, ip2).clients == Connect(d, fd2, ip2).clients;
    }
  }

  /** When another connection comes in, one that was being read still is exactly if its slot is not the
      first inactive one, as when it has registered; otherwise it is in no slot and never read again. */
  lemma ConnectionLost(d: Directory, fd: int, newFd: int, ip: Word32)
    requires fd != newFd && FdSlot(d.clients, fd, 0) < |d.clients|
    requires forall i, j :: 0 <= i < j < |d.clients| && d.clients[i].fd > 0 ==> d.clients[i].fd != d.clients[j].fd
    ensures var i := FdSlot(d.clients, fd, 0);
            FdSlot(Connect(d, newFd, ip).clients, fd, 0) == if i == FreeSlot(d.clients, 0) then |d.clients| else i
    ensures d.clients[FdSlot(d.clients, fd, 0)].active ==> FdSlot(d.clients, fd, 0) != FreeSlot(d.clients, 0)
  {
    var i, e := FdSlot(d.clients, fd, 0), Connect(d, newFd, ip);
    var n := FdSlot(e.clients, fd, 0);
    forall j | 0 <= j < |d.clients| && j != i ensures e.clients[j].fd != fd {
      assert d.clients[j].fd != fd;
    }
    assert i != FreeSlot(d.clients, 0) ==> e.clients[i] == d.clients[i];
    assert n < |d.clients| ==> n == i;
  }

  /** A connection that finds a slot is read from there, with its address, and is not registered. */
  lemma ConnectionRead(d: Directory, fd: int, ip: Word32)
    requires fd > 0 && forall j :: 0 <= j < |d.clients| ==> d.clients[j].fd != fd
    ensures var i, e := FreeSlot(d.clients, 0), Connect(d, fd, ip);
            && |e.clients| == |d.clients| && FdSlot(e.clients, fd, 0) == i
            && (i < |d.clients| ==> e.clients[i].ip == ip && !e.clients[i].active)
            && (forall j :: 0 <= j < |d.clients| && j != i ==> e.clients[j] == d.clients[j])
            && e == d.(clients := e.clients)
  {
    var i, e := FreeSlot(d.clients, 0), Connect(d, fd, ip);
    assert forall j :: 0 <= j < |d.clients| && j != i ==> e.clients[j] == d.clients[j];
    if i < |d.clients| {
      assert e.clients[i].fd == fd;
    }
  }

  lemma {:induction false} WithoutMembers(files: seq<SharedFile>, owner: Word32, f: SharedFile)
    ensures f in Without(files, owner) <==> f in files && f.owner != owner
  {
    if files != [] {
      var n := |files| - 1;
      WithoutMembers(files[..n], owner, f);
      assert files == files[..n] + [files[n]];
    }
  }

  lemma LastFile(files: seq<SharedFile>, nextId: Word32)
    requires FilesOk(files, nextId) && files != []
    ensures var n := |files| - 1;
            && FilesOk(files[..n], nextId) && n < MAX_FILES && files[n].id < nextId
            && forall f :: f in files[..n] ==> f.id < files[n].id
  {
  }

  lemma OneMoreFile(files: seq<SharedFile>, nextId: Word32, f: SharedFile)
    requires FilesOk(files, nextId) && |files| < MAX_FILES && f.id < nextId
    requires forall g :: g in files ==> g.id < f.id
    ensures FilesOk(files + [f], nextId)
  {
  }

  /** Removal filters in order, so what is listed stays sorted. */
  lemma {:induction false} WithoutSorted(files: seq<SharedFile>, owner: Word32, nextId: Word32)
    requires FilesOk(files, nextId)
    ensures FilesOk(Without(files, owner), nextId)
  {
    hide FilesOk;
    if files != [] {
      var n := |files| - 1;
      var rest := Without(files[..n], owner);
      LastFile(files, nextId);
      WithoutSorted(files[..n], owner, nextId);
      forall f | f in rest ensures f.id < files[n].id {
        WithoutMembers(files[..n], owner, f);
      }
      OneMoreFile(rest, nextId, files[n]);
      assert Without(files, owner) == rest || Without(files, owner) == rest + [files[n]];
    }
  }

  /** A slot that changes without a new id or becoming active. */
  lemma SlotChanged(clients: seq<Client>, nextId: Word32, i: nat, c: Client)
    requires ClientsOk(clients, nextId) && i < |clients|
    requires c.id == clients[i].id && (c.active ==> clients[i].active)
    ensures ClientsOk(clients[i := c], nextId)
  {
  }

  lemma RemoveInv(d: Directory, i: nat)
    requires Inv(d) && i < |d.clients|
    ensures Inv(Remove(d, i))
  {
    hide ClientsOk, FilesOk, ActiveCount, Without;
    if d.clients[i].active {
      var e := Remove(d, i);
      CountUpdate(d.clients, i, e.clients[i]);
      SlotChanged(d.clients, d.nextClientId, i, e.clients[i]);
      WithoutSorted(d.files, d.clients[i].id, d.nextFileId);
      forall k | 0 <= k < |e.files| ensures HasOwner(e.clients, e.files[k]) {
        var f := e.files[k];
        WithoutMembers(d.files, d.clients[i].id, f);
        var m :| 0 <= m < |d.files| && d.files[m] == f;
        assert HasOwner(d.clients, d.files[m]);
        var j :| 0 <= j < |d.clients| && Owns(d.clients[j], f);
        assert Owns(e.clients[j], f);
      }
    }
  }

  /** What removal removes: an active slot and no other becomes inactive, its files and no others are no
      longer found, and every other request is answered as before. */
  lemma RemoveMeans(d: Directory, i: nat, fileId: Word32)
    requires Inv(d) && i < |d.clients| && d.clients[i].active
    ensures var e := Remove(d, i);
            && |e.clients| == |d.clients| && !e.clients[i].active && e.clients[i].fd == -1
            && (forall j :: 0 <= j < |d.clients| && j != i ==> e.clients[j] == d.clients[j])
            && e.numClients == d.numClients - 1
    ensures Request(Remove(d, i), fileId) ==
            if exists k :: 0 <= k < |d.files| && d.files[k].id == fileId && d.files[k].owner == d.clients[i].id
            then FileNotFound else Request(d, fileId)
  {
    hide FilesOk, ActiveCount, Without, Request, ClientsOk;
    var e := Remove(d, i);
    RemoveInv(d, i);
    RequestServed(d, fileId);
    RequestServed(e, fileId);
    forall f ensures f in e.files <==> f in d.files && f.owner != d.clients[i].id {
      WithoutMembers(d.files, d.clients[i].id, f);
    }
    if k :| 0 <= k < |d.files| && d.files[k].id == fileId {
      OneRecord(d.files, d.nextFileId, k);
      if d.files[k].owner == d.clients[i].id {
        NotListed(e.files, fileId, d.files[k]);
      } else {
        assert d.files[k] in e.files;
        var m :| 0 <= m < |e.files| && e.files[m] == d.files[k];
        assert HasOwner(d.clients, d.files[k]);
        var o :| 0 <= o < |d.clients| && Owns(d.clients[o], d.files[k]);
        assert e.clients[o] == d.clients[o];
      }
    }
  }

  lemma OneRecord(files: seq<SharedFile>, nextId: Word32, k: nat)
    requires FilesOk(files, nextId) && k < |files|
    ensures forall f :: f in files && f.id == files[k].id ==> f == files[k]
  {
  }

  lemma NotListed(files: seq<SharedFile>, id: Word32, g: SharedFile)
    requires g !in files && forall f :: f in files && f.id == id ==> f == g
    ensures forall k :: 0 <= k < |files| ==> files[k].id != id
  {
    forall k | 0 <= k < |files| ensures files[k].id != id {
      assert files[k] in files;
    }
  }

  /** Removing a connection that is not registered does nothing. */
  lemma RemoveInactive(d: Directory, i: nat)
    requires i < |d.clients|
    ensures !d.clients[i].active ==> Remove(d, i) == d
  {
  }

  /** Registering keeps the invariant exactly when the connection was not registered yet and the id
      counter does not wrap. */
  lemma RegisterExactly(d: Directory, i: nat, port: Word16)
    requires Inv(d) && i < |d.clients|
    ensures Inv(Register(d, i, port)) <==> !d.clients[i].active && d.nextClientId < TWO_32 - 1
  {
    var e := Register(d, i, port);
    CountUpdate(d.clients, i, e.clients[i]);
    if !d.clients[i].active && d.nextClientId < TWO_32 - 1 {
      forall k | 0 <= k < |d.files| ensures HasOwner(e.clients, d.files[k]) {
        var j :| 0 <= j < |d.clients| && Owns(d.clients[j], d.files[k]);
        assert Owns(e.clients[j], d.files[k]);
      }
    }
  }

  /** Sharing keeps the invariant exactly when the table is full, or the client is registered and the id
      counter does not wrap. */
  lemma ShareExactly(d: Directory, i: nat, offer: Offer)
    requires Inv(d) && i < |d.clients|
    ensures Inv(Share(d, i, offer)) <==>
            |d.files| == MAX_FILES || (d.clients[i].active && d.nextFileId < TWO_32 - 1)
  {
    if |d.files| < MAX_FILES {
      var e := Share(d, i, offer);
      var f := e.files[|d.files|];
      assert forall k :: 0 <= k < |d.files| ==> e.files[k] == d.files[k];
      if d.clients[i].active {
        assert Owns(e.clients[i], f);
      }
    }
  }

  /** A listed file is always served, with its own record and its owner's endpoint; anything else is not
      found. No request is ever answered with "no peers". */
  lemma RequestServed(d: Directory, fileId: Word32)
    requires Inv(d)
    ensures Request(d, fileId) != NoPeers
    ensures Request(d, fileId) == FileNotFound <==> forall k :: 0 <= k < |d.files| ==> d.files[k].id != fileId
    ensures forall k, i :: 0 <= k < |d.files| && d.files[k].id == fileId
              && 0 <= i < |d.clients| && Owns(d.clients[i], d.files[k])
              ==> Request(d, fileId) == Location(d.files[k], d.clients[i].ip, d.clients[i].udpPort)
  {
    var f := FileSlot(d.files, fileId, 0);
    if f < |d.files| {
      assert HasOwner(d.clients, d.files[f]);
      forall k | 0 <= k < |d.files| && d.files[k].id == fileId ensures k == f {
        assert !(f < k) && !(k < f);
      }
    }
  }

  /** Every listed file can be had. */
  ghost predicate Served(d: Directory) {
    forall k :: 0 <= k < |d.files| ==> Request(d, d.files[k].id).Location?
  }

  /** A second registration of one connection orphans its files: all remain obtainable exactly when it
      had shared none. */
  lemma ReRegisterOrphans(d: Directory, i: nat, port: Word16)
    requires Inv(d) && i < |d.clients| && d.clients[i].active && d.nextClientId < TWO_32 - 1
    ensures Served(Register(d, i, port)) <==>
            forall k :: 0 <= k < |d.files| ==> d.files[k].owner != d.clients[i].id
  {
    var e := Register(d, i, port);
    forall k | 0 <= k < |d.files|
      ensures Request(e, d.files[k].id).Location? <==> d.files[k].owner != d.clients[i].id
    {
      assert FileSlot(e.files, d.files[k].id, 0) == k;
      assert HasOwner(d.clients, d.files[k]);
      var j :| 0 <= j < |d.clients| && Owns(d.clients[j], d.files[k]);
      assert j != i ==> Owns(e.clients[j], d.files[k]);
    }
  }

  /** Sharing one file leaves the others as obtainable as they were. */
  lemma OthersServed(d: Directory, i: nat, offer: Offer, k: nat)
    requires Inv(d) && i < |d.clients| && |d.files| < MAX_FILES && k < |d.files|
    ensures var e := Share(d, i, offer);
            e.files[k] == d.files[k] && Request(e, e.files[k].id).Location?
  {
    var e := Share(d, i, offer);
    assert e.files[k] == d.files[k];
    assert FileSlot(e.files, d.files[k].id, 0) == k;
    assert HasOwner(d.clients, d.files[k]);
  }

  /** What sharing makes known: under the next id, a file of the size, hash and name offered, at the client's
      endpoint; every other request is answered as before. */
  lemma ShareMeans(d: Directory, i: nat, offer: Offer, fileId: Word32)
    requires Inv(d) && i < |d.clients| && d.clients[i].active && |d.files| < MAX_FILES && d.nextFileId < TWO_32 - 1
    ensures var reply := Request(Share(d, i, offer), d.nextFileId);
            && reply.Location? && reply.ip == d.clients[i].ip && reply.port == d.clients[i].udpPort
            && reply.file.id == d.nextFileId && reply.file.size == offer.size && reply.file.hash == offer.hash
            && Text(reply.file.name) == offer.name[..Min(StrLen(offer.name), 255)]
            && reply.file.owner == d.clients[i].id
    ensures fileId != d.nextFileId ==> Request(Share(d, i, offer), fileId) == Request(d, fileId)
  {
    hide Inv, StrLen, FileSlot, ClientSlot;
    ShareServed(d, i, offer);
    if fileId != d.nextFileId {
      FoundAsBefore(d.files, Entry(d, i, offer), fileId);
    }
  }

  lemma FoundAsBefore(files: seq<SharedFile>, f: SharedFile, id: Word32)
    requires f.id != id
    ensures var n := FileSlot(files, id, 0);
            FileSlot(files + [f], id, 0) == if n == |files| then |files| + 1 else n
  {
    var m, n := FileSlot(files + [f], id, 0), FileSlot(files, id, 0);
    assert forall j :: 0 <= j < |files| ==> (files + [f])[j] == files[j];
    assert (files + [f])[|files|] == f;
    assert n < |files| ==> (files + [f])[n].id == id;
  }

  lemma LastFound(files: seq<SharedFile>, nextId: Word32, f: SharedFile)
    requires FilesOk(files, nextId) && f.id == nextId
    ensures FileSlot(files + [f], nextId, 0) == |files|
  {
    var n := FileSlot(files + [f], nextId, 0);
    assert (files + [f])[|files|] == f;
  }

  lemma ActiveFound(clients: seq<Client>, nextId: Word32, i: nat)
    requires ClientsOk(clients, nextId) && i < |clients|
    ensures ClientSlot(clients, clients[i].id, 0) == if clients[i].active then i else |clients|
  {
    var o := ClientSlot(clients, clients[i].id, 0);
    assert o < |clients| ==> clients[o].id == clients[i].id;
  }

  /** A file shared over a connection that is not registered can never be had. */
  lemma ShareServed(d: Directory, i: nat, offer: Offer)
    requires Inv(d) && i < |d.clients| && |d.files| < MAX_FILES && d.nextFileId < TWO_32 - 1
    ensures Served(Share(d, i, offer)) <==> d.clients[i].active
    ensures Request(Share(d, i, offer), d.nextFileId) ==
            if d.clients[i].active then Location(Entry(d, i, offer), d.clients[i].ip, d.clients[i].udpPort) else NoPeers
  {
    hide ClientsOk, FilesOk, ActiveCount, HasOwner, NameCopy, FileSlot, ClientSlot;
    var e, n := Share(d, i, offer), |d.files|;
    LastFound(d.files, d.nextFileId, Entry(d, i, offer));
    ActiveFound(d.clients, d.nextClientId, i);
    forall k | 0 <= k < n ensures Request(e, e.files[k].id).Location? {
      OthersServed(d, i, offer, k);
    }
    assert e.files[n] == Entry(d, i, offer);
  }
}
