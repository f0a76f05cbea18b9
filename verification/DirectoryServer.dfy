/** The directory server as it is written: two global arrays, updated in place. */
module DirectoryServer {
  import opened Protocol
  import opened CStrings
  import opened Registry

  class Server {
    const clients: array<Client>
    const files: array<SharedFile>
    var numFiles: nat
    var nextClientId: Word32
    var nextFileId: Word32
    var numClients: int

    ghost predicate Valid()
      reads this
    {
      clients.Length == MAX_CLIENTS && files.Length == MAX_FILES && numFiles <= MAX_FILES
    }

    ghost function Contents(): Directory
      requires Valid()
      reads this, clients, files
    {
      Directory(clients[..], files[..numFiles], nextClientId, nextFileId, numClients)
    }

    constructor ()
      ensures Valid() && fresh(clients) && fresh(files) && Contents() == Empty()
    {
      clients := new Client[MAX_CLIENTS](_ => Client(0, 0, 0, 0, false));
      files := new SharedFile[MAX_FILES](_ => SharedFile(0, 0, seq(32, _ => 0), NameCopy([]), 0));
      numFiles, nextClientId, nextFileId, numClients := 0, 1, 1, 0;
      new;
      assert clients[..] == Empty().clients;
    }

    /** `accept_new_client`: the connection takes the first slot that is not active. */
    method AcceptNewClient(fd: int, ip: Word32)
      requires Valid()
      modifies clients
      ensures Contents() == Connect(old(Contents()), fd, ip)
    {
      for i := 0 to MAX_CLIENTS
        invariant FreeSlot(clients[..], i) == FreeSlot(clients[..], 0)
        invariant clients[..] == old(clients[..])
      {
        if !clients[i].active {
          clients[i] := clients[i].(fd := fd, ip := ip, active := false);
          return;
        }
      }
    }

    /** `handle_register` on the connection in slot `i`; returns the id acknowledged. */
    method HandleRegister(i: nat, port: Word16) returns (id: Word32)
      requires Valid() && i < MAX_CLIENTS
      modifies this, clients
      ensures Valid() && Contents() == Register(old(Contents()), i, port)
      ensures id == clients[i].id
    {
      id := nextClientId;
      clients[i] := clients[i].(udpPort := port, id := id, active := true);
      nextClientId := U32(nextClientId + 1);
      numClients := numClients + 1;
    }

    /** `handle_share_file`; returns the file id acknowledged, or none if the table is full. */
    method HandleShareFile(i: nat, offer: Offer) returns (id: Option<Word32>)
      requires Valid() && i < MAX_CLIENTS
      modifies this, files
      ensures Valid() && Contents() == Share(old(Contents()), i, offer)
      ensures id == if old(numFiles) == MAX_FILES then None else Some(old(nextFileId))
    {
      if numFiles >= MAX_FILES { return None; }
      files[numFiles] := SharedFile(nextFileId, offer.size, offer.hash, NameCopy(offer.name), clients[i].id);
      id := Some(nextFileId);
      numFiles := numFiles + 1;
      nextFileId := U32(nextFileId + 1);
    }

    /** `find_client`. */
    method FindClient(id: Word32) returns (slot: Option<nat>)
      requires Valid()
      ensures var i := ClientSlot(clients[..], id, 0);
              slot == if i == MAX_CLIENTS then None else Some(i)
    {
      for i := 0 to MAX_CLIENTS
        invariant ClientSlot(clients[..], id, i) == ClientSlot(clients[..], id, 0)
      {
        if clients[i].active && clients[i].id == id { return Some(i); }
      }
      slot := None;
    }

    /** `find_client_by_fd`. */
    method FindClientByFd(fd: int) returns (slot: Option<nat>)
      requires Valid()
      ensures var i := FdSlot(clients[..], fd, 0);
              slot == if i == MAX_CLIENTS then None else Some(i)
    {
      for i := 0 to MAX_CLIENTS
        invariant FdSlot(clients[..], fd, i) == FdSlot(clients[..], fd, 0)
      {
        if clients[i].fd == fd && clients[i].fd > 0 { return Some(i); }
      }
      slot := None;
    }

    /** `find_file`. */
    method FindFile(id: Word32) returns (slot: Option<nat>)
      requires Valid()
      ensures var i := FileSlot(files[..numFiles], id, 0);
              slot == if i == numFiles then None else Some(i)
    {
      for i := 0 to numFiles
        invariant FileSlot(files[..numFiles], id, i) == FileSlot(files[..numFiles], id, 0)
      {
        if files[i].id == id { return Some(i); }
      }
      slot := None;
    }

    /** `handle_request_file`. */
    method HandleRequestFile(fileId: Word32) returns (reply: Reply)
      requires Valid()
      ensures reply == Request(Contents(), fileId)
    {
      var file := FindFile(fileId);
      if file == None { return FileNotFound; }
      var owner := FindClient(files[file.value].owner);
      if owner == None { return NoPeers; }
      reply := Location(files[file.value], clients[owner.value].ip, clients[owner.value].udpPort);
    }

    /** `remove_client`. */
    method RemoveClient(i: nat)
      requires Valid() && i < MAX_CLIENTS
      modifies this, clients, files
      ensures Valid() && Contents() == Remove(old(Contents()), i)
    {
      if !clients[i].active { return; }
      RemoveFiles(clients[i].id);
      clients[i] := clients[i].(fd := -1, active := false);
      numClients := numClients - 1;
    }

    /** Its two nested loops: shift the rest down over each owned entry, and look at the same index
        again. What is left is the subsequence of entries not owned. */
    method RemoveFiles(owner: Word32)
      requires Valid()
      modifies this`numFiles, files
      ensures Valid() && files[..numFiles] == Without(old(files[..numFiles]), owner)
    {
      ghost var before := files[..numFiles];
      var i := 0;
      while i < numFiles
        invariant 0 <= i <= numFiles <= MAX_FILES
        invariant Without(files[..numFiles], owner) == Without(before, owner)
        invariant forall k :: 0 <= k < i ==> files[k].owner != owner
        decreases numFiles - i
      {
        if files[i].owner == owner {
          WithoutSkips(files[..numFiles], i, owner);
          ShiftDown(i);
          i := i - 1;
        }
        i := i + 1;
      }
      WithoutNone(files[..numFiles], owner);
    }

    /** The inner loop, and the shorter length that follows it. */
    method ShiftDown(i: nat)
      requires Valid() && i < numFiles
      modifies this`numFiles, files
      ensures Valid() && numFiles == old(numFiles) - 1
      ensures files[..numFiles] == old(files[..numFiles])[..i] + old(files[..numFiles])[i + 1..]
      ensures forall k :: 0 <= k < i ==> files[k] == old(files[k])
    {
      ghost var before := files[..];
      var j := i;
      while j < numFiles - 1
        invariant i <= j < numFiles == old(numFiles)
        invariant forall k :: 0 <= k < i || j <= k < numFiles ==> files[k] == before[k]
        invariant forall k :: i <= k < j ==> files[k] == before[k + 1]
      {
        files[j] := files[j + 1];
        j := j + 1;
      }
      numFiles := numFiles - 1;
      CutOut(files[..numFiles], before[..numFiles + 1], i);
    }
  }

  lemma CutOut(after: seq<SharedFile>, before: seq<SharedFile>, i: nat)
    requires i < |before| == |after| + 1
    requires forall k :: 0 <= k < i ==> after[k] == before[k]
    requires forall k :: i <= k < |after| ==> after[k] == before[k + 1]
    ensures after == before[..i] + before[i + 1..]
  {
  }

  lemma WithoutLast(files: seq<SharedFile>, f: SharedFile, owner: Word32)
    ensures Without(files + [f], owner) == Without(files, owner) + if f.owner == owner then [] else [f]
  {
    assert (files + [f])[..|files|] == files;
  }

  lemma {:induction false} WithoutConcat(a: seq<SharedFile>, b: seq<SharedFile>, owner: Word32)
    ensures Without(a + b, owner) == Without(a, owner) + Without(b, owner)
  {
    hide Without;
    if b == [] {
      WithoutNone([], owner);
      assert a + b == a;
    } else {
      var init, last := b[..|b| - 1], b[|b| - 1];
      WithoutConcat(a, init, owner);
      WithoutLast(init, last, owner);
      WithoutLast(a + init, last, owner);
      assert b == init + [last];
      assert a + b == a + init + [last];
      Regroup(Without(a, owner), Without(init, owner), if last.owner == owner then [] else [last]);
    }
  }

  lemma Regroup<T>(a: seq<T>, b: seq<T>, c: seq<T>)
    ensures a + b + c == a + (b + c)
  {
  }

  /** Dropping an owned entry does not change what is left of the list. */
  lemma WithoutSkips(files: seq<SharedFile>, i: nat, owner: Word32)
    requires i < |files| && files[i].owner == owner
    ensures Without(files[..i] + files[i + 1..], owner) == Without(files, owner)
  {
    hide Without;
    var a, b := files[..i], files[i + 1..];
    assert files == a + [files[i]] + b;
    WithoutConcat(a, b, owner);
    WithoutConcat(a, [files[i]], owner);
    WithoutConcat(a + [files[i]], b, owner);
    OwnedDropped(files[i]);
  }

  lemma OwnedDropped(f: SharedFile)
    ensures Without([f], f.owner) == []
  {
    assert [f][..0] == [];
  }

  lemma {:induction false} WithoutNone(files: seq<SharedFile>, owner: Word32)
    requires forall k :: 0 <= k < |files| ==> files[k].owner != owner
    ensures Without(files, owner) == files
  {
    if files != [] {
      var n := |files| - 1;
      WithoutNone(files[..n], owner);
      assert files == files[..n] + [files[n]];
    }
  }
}
