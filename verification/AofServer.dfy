/**
  The append only file protocol of aof.c: feeding, flushing, background rewriting with its
  file swap, failures and retries, and switching the file on and off at run time.

  File descriptors refer to inodes, so that a rename and an open descriptor are told apart.
  System calls that may fail take their outcome as an argument.
*/
module AofServer {
  import opened Bytes
  import opened Decimal
  import opened Multibulk
  import opened AofFormat
  import opened AofBuffer
  import opened AofReplay
  import opened Sequences

  datatype AofState = Off | WaitRewrite | On

  /** What write(2) makes of the buffer: all of it, an error, or a part, after which the file is cut
      back to its known size unless that fails too. */
  datatype WriteResult = Whole | Refused | Part(kept: nat, cutBack: bool)

  class Server<Data(!new)> {
    const w: World<Data>
    const dump: Data -> seq<Request>
    const rewriteBuf: RewriteBuffer
    var dataset: Data
    var aofState: AofState
    var selectedDb: int
    var aofBuf: seq<Byte>
    var disk: map<nat, seq<Byte>>
    var named: Option<nat>        // the inode called aof_filename
    var aofFd: Fd
    var child: Option<Data>       // the dataset the running child was forked with
    var nextInode: nat
    var currentSize: nat          // aof_current_size
    ghost var fileLog: seq<Request>
    ghost var bufLog: seq<Request>
    ghost var diffLog: seq<Request>
    /** The dataset when the file was last written. */
    ghost var flushed: Data

    /** The file and its unflushed buffer, against a dataset and a selected database. */
    ghost predicate FileTracks(sel: int, data: Data)
      reads `aofState, `aofBuf, `disk, `named, `aofFd, `currentSize, `fileLog, `bufLog, `flushed
    {
      match aofState
      case Off => aofBuf == []
      case WaitRewrite => aofBuf == [] && aofFd.Open?
      case On =>
        && named.Some? && aofFd == Open(named.value) && named.value in disk
        && AllStorable(fileLog) && disk[named.value] == Stream(fileLog) && currentSize == |disk[named.value]|
        && Tracks(w, fileLog, -1, flushed)
        && Holds(w, fileLog, bufLog, aofBuf, sel, data)
    }

    /** The child's snapshot and the parent's changes since, against the same. */
    ghost predicate DiffTracks(sel: int, data: Data)
      reads `aofState, `child, `diffLog, rewriteBuf
    {
      match child
      case Some(snapshot) =>
        && rewriteBuf.Valid()
        && (if aofState == Off then rewriteBuf.Contents() == []
            else Holds(w, dump(snapshot), diffLog, rewriteBuf.Contents(), sel, data))
      case None => rewriteBuf.Valid() && rewriteBuf.Contents() == []
    }

    ghost predicate Inodes()
      reads `disk, `named, `aofFd, `nextInode
    {
      InUse(disk, named, aofFd, nextInode)
    }

    ghost predicate Valid()
      reads this, rewriteBuf
    {
      && Faithful(w) && Rebuilds(w, dump) && selectedDb >= -1 && Inodes()
      && FileTracks(selectedDb, dataset) && DiffTracks(selectedDb, dataset)
    }

    /** Whenever the file is on, loading it and then the unflushed buffer gives the dataset. */
    lemma LoadsDataset()
      requires Valid() && aofState == On
      ensures named.Some? && named.value in disk
      ensures Load(w, disk[named.value] + aofBuf) == Some(dataset)
    {
      StreamAppend(fileLog, bufLog);
      FileParsed(fileLog + bufLog);
    }

    /** Startup with "appendonly no"; a file of that name may or may not exist. */
    constructor StartOff(w: World<Data>, dump: Data -> seq<Request>, dataset: Data, file: Option<seq<Byte>>)
      requires Faithful(w) && Rebuilds(w, dump)
      ensures Valid()
      ensures this.dataset == dataset && aofState == Off && child == None
      ensures this.w == w && this.dump == dump && fresh(rewriteBuf)
    {
      this.w, this.dump, this.dataset := w, dump, dataset;
      rewriteBuf := new RewriteBuffer();
      aofState, selectedDb, aofBuf, aofFd, child, nextInode, currentSize := Off, -1, [], NoFd, None, 1, 0;
      disk := if file.Some? then map[0 := file.value] else map[];
      named := if file.Some? then Some(0) else None;
      fileLog, bufLog, diffLog, flushed := [], [], [], dataset;
    }

    /** Startup with "appendonly yes", after the file has been loaded. */
    constructor StartOn(w: World<Data>, dump: Data -> seq<Request>, log: seq<Request>)
      requires Faithful(w) && Rebuilds(w, dump) && AllStorable(log)
      ensures Valid()
      ensures dataset == Replay(w, log, State(0, w.empty)).data && aofState == On && child == None
      ensures this.w == w && this.dump == dump && fresh(rewriteBuf)
    {
      this.w, this.dump, this.dataset := w, dump, Replay(w, log, State(0, w.empty)).data;
      rewriteBuf := new RewriteBuffer();
      aofState, selectedDb, aofBuf, aofFd, child, nextInode := On, -1, [], Open(0), None, 1;
      disk, named, currentSize := map[0 := Stream(log)], Some(0), |Stream(log)|;
      fileLog, bufLog, diffLog, flushed := log, [], [], Replay(w, log, State(0, w.empty)).data;
      HoldsEmpty(w, log, -1, Replay(w, log, State(0, w.empty)).data);
    }

    /** The bytes feedAppendOnlyFile builds for one command. */
    static method FeedBytes(selectedDb: int, db: nat, c: Command, now: int) returns (buf: seq<Byte>)
      requires WellFormed(c)
      ensures buf == Stream(Fed(selectedDb, db, c, now))
    {
      buf := [];
      if db != selectedDb {
        var seldb := LongLongToString(db);
        buf := CatCommand(buf, [SELECT, seldb]);
      }
      ghost var head := if db != selectedDb then [SelectDb(db)] else [];
      assert buf == Stream(head) by { StreamOfOne(SelectDb(db)); }
      var requests := Translate(c, now);
      buf := CatCommand(buf, requests[0]);
      StreamOfOne(requests[0]);
      if |requests| > 1 {
        buf := CatCommand(buf, requests[1]);
        StreamOfOne(requests[1]);
        StreamAppend([requests[0]], [requests[1]]);
        assert requests == [requests[0]] + [requests[1]];
        Associates(Stream(head), EncodeRequest(requests[0]), EncodeRequest(requests[1]));
      } else {
        assert requests == [requests[0]];
      }
      StreamAppend(head, requests);
    }

    /** feedAppendOnlyFile up to the point where the bytes are appended. */
    static method Feed(
        w: World<Data>, selectedDb: int, db: nat, c: Command, now: int, ghost data: Data, ghost data': Data)
      returns (buf: seq<Byte>, ghost fed: seq<Request>)
      requires Turns(w, db, c, now, data, data') && db < 0x8000_0000
      ensures buf == Stream(fed) && AllStorable(fed)
      ensures Carries(w, fed, selectedDb, db, data, data')
    {
      fed := Fed(selectedDb, db, c, now);
      FedStorable(selectedDb, db, c, now);
      FedCarries(w, selectedDb, data, db, c, now, data');
      buf := FeedBytes(selectedDb, db, c, now);
    }

    /** if (server.aof_state == REDIS_AOF_ON) append to the buffer */
    method FeedFile(buf: seq<Byte>, ghost fed: seq<Request>, ghost sel: int, ghost data: Data, ghost db: nat,
        ghost data': Data)
      requires FileTracks(sel, data) && buf == Stream(fed)
      requires AllStorable(fed) && Carries(w, fed, sel, db, data, data')
      modifies `aofBuf, `bufLog
      ensures FileTracks(db, data')
    {
      if aofState == On {
        HoldsExtend(w, fileLog, bufLog, aofBuf, sel, data, fed, db, data');
        aofBuf := aofBuf + buf;
        bufLog := bufLog + fed;
      }
    }

    /** if (server.aof_child_pid != -1) append to the rewrite buffer */
    method FeedDiff(buf: seq<Byte>, ghost fed: seq<Request>, ghost sel: int, ghost data: Data, ghost db: nat,
        ghost data': Data)
      requires DiffTracks(sel, data) && buf == Stream(fed) && aofState != Off
      requires AllStorable(fed) && Carries(w, fed, sel, db, data, data')
      modifies `diffLog, rewriteBuf
      ensures DiffTracks(db, data')
    {
      if child.Some? {
        HoldsExtend(w, dump(child.value), diffLog, rewriteBuf.Contents(), sel, data, fed, db, data');
        rewriteBuf.Append(buf);
        diffLog := diffLog + fed;
      }
    }

    method FeedBoth(buf: seq<Byte>, ghost fed: seq<Request>, ghost data: Data, ghost db: nat, ghost data': Data)
      requires FileTracks(selectedDb, data) && DiffTracks(selectedDb, data) && aofState != Off
      requires buf == Stream(fed) && AllStorable(fed) && Carries(w, fed, selectedDb, db, data, data')
      modifies `aofBuf, `bufLog, `diffLog, rewriteBuf
      ensures FileTracks(db, data')
      ensures DiffTracks(db, data')
    {
      FeedFile(buf, fed, selectedDb, data, db, data');
      FeedDiff(buf, fed, selectedDb, data, db, data');
    }

    /** feedAppendOnlyFile for a command whose written form turns dataset `was` into `data`. */
    method FeedAppendOnlyFile(db: nat, c: Command, now: int, ghost was: Data, ghost data: Data)
      requires FileTracks(selectedDb, was) && DiffTracks(selectedDb, was) && aofState != Off
      requires Turns(w, db, c, now, was, data) && db < 0x8000_0000
      modifies `selectedDb, `aofBuf, `bufLog, `diffLog, rewriteBuf
      ensures selectedDb == db
      ensures FileTracks(db, data)
      ensures DiffTracks(db, data)
    {
      var buf;
      ghost var fed;
      buf, fed := Feed(w, selectedDb, db, c, now, was, data);
      FeedBoth(buf, fed, was, db, data);
      selectedDb := db;
    }

    /** A client's command: the dataset changes and, unless the file is off, what it propagates is
        fed. */
    method Execute(db: nat, c: Command, now: int)
      requires Valid() && WellFormed(c) && w.timeless(c) && db < 0x8000_0000
      modifies `dataset, `selectedDb, `aofBuf, `bufLog, `diffLog, rewriteBuf
      ensures Valid()
      ensures dataset == w.live(db, c, now, old(dataset)).data
    {
      if aofState != Off { ExecuteAndFeed(db, c, now); } else { ExecuteOnly(db, c, now); }
    }

    method ExecuteAndFeed(db: nat, c: Command, now: int)
      requires Valid() && WellFormed(c) && w.timeless(c) && db < 0x8000_0000 && aofState != Off
      modifies `dataset, `selectedDb, `aofBuf, `bufLog, `diffLog, rewriteBuf
      ensures Valid()
      ensures dataset == w.live(db, c, now, old(dataset)).data
    {
      ghost var was := dataset;
      var e := w.live(db, c, now, dataset);
      assert FaithfulAt(w, db, c, now, was);
      dataset := e.data;
      FeedAll(db, e.fed, now, was);
      assert e.fed[..|e.fed|] == e.fed;
    }

    /** Everything that one command propagates, in order. */
    method FeedAll(db: nat, fed: seq<Command>, now: int, ghost was: Data)
      requires FileTracks(selectedDb, was) && DiffTracks(selectedDb, was) && aofState != Off
      requires AllWellFormed(fed) && db < 0x8000_0000 && selectedDb >= -1
      modifies `selectedDb, `aofBuf, `bufLog, `diffLog, rewriteBuf
      ensures selectedDb >= -1
      ensures FileTracks(selectedDb, Midway(w, fed, |fed|, now, db, was))
      ensures DiffTracks(selectedDb, Midway(w, fed, |fed|, now, db, was))
    {
      for i := 0 to |fed|
        invariant selectedDb >= -1
        invariant FileTracks(selectedDb, Midway(w, fed, i, now, db, was))
        invariant DiffTracks(selectedDb, Midway(w, fed, i, now, db, was))
      {
        MidwayNext(w, fed, i, now, db, was);
        ghost var before, after := Midway(w, fed, i, now, db, was), Midway(w, fed, i + 1, now, db, was);
        assert WellFormed(fed[i]);
        FeedAppendOnlyFile(db, fed[i], now, before, after);
      }
    }

    method ExecuteOnly(db: nat, c: Command, now: int)
      requires Valid() && aofState == Off
      modifies `dataset
      ensures Valid()
      ensures dataset == w.live(db, c, now, old(dataset)).data
    {
      OffTracksAny(selectedDb, dataset, w.live(db, c, now, dataset).data);
      dataset := w.live(db, c, now, dataset).data;
    }

    /** With the file off nothing depends on the dataset. */
    lemma OffTracksAny(sel: int, data: Data, data': Data)
      requires aofState == Off && FileTracks(sel, data) && DiffTracks(sel, data)
      ensures FileTracks(sel, data') && DiffTracks(sel, data')
    {
    }

    /** What is left when a flush has ended the process: the file as it was last written, unless a
        part of the buffer could not be cut off again. */
    ghost predicate Stopped(result: WriteResult)
      reads `disk, `named, `flushed
    {
      && named.Some? && named.value in disk
      && (!(result.Part? && !result.cutBack) ==> Load(w, disk[named.value]) == Some(flushed))
    }

    /** flushAppendOnlyFile: the write may be postponed, and unless it takes the whole buffer it ends
        the process. */
    method Flush(postpone: bool, result: WriteResult) returns (exited: bool)
      requires Valid()
      modifies `aofBuf, `disk, `currentSize, `fileLog, `bufLog, `flushed
      ensures exited <==>
        old(aofBuf) != [] && !postpone && (result.Refused? || (result.Part? && result.kept < |old(aofBuf)|))
      ensures !exited ==> Valid()
      ensures !exited ==> aofBuf == if postpone then old(aofBuf) else []
      ensures exited ==> Stopped(result) && flushed == old(flushed)
      ensures flushed == old(flushed) || flushed == dataset
    {
      if aofBuf == [] || postpone { return false; }
      FlushedLoads();
      if result.Refused? { return true; }
      if result.Part? && result.kept < |aofBuf| {
        WritePart(result.kept, result.cutBack);
        return true;
      }
      FlushWhole();
      return false;
    }

    method FlushWhole()
      requires Valid() && aofState == On
      modifies `aofBuf, `disk, `currentSize, `fileLog, `bufLog, `flushed
      ensures Valid()
      ensures aofBuf == [] && flushed == dataset
    {
      HoldsFlush(w, fileLog, bufLog, aofBuf, selectedDb, dataset);
      HoldsNothing(w, fileLog + bufLog, selectedDb, dataset);
      WriteOut();
    }

    lemma FlushedLoads()
      requires Valid() && aofBuf != []
      ensures aofState == On && named.Some? && aofFd == Open(named.value) && named.value in disk
        && currentSize == |disk[named.value]|
      ensures Load(w, disk[named.value]) == Some(flushed)
    {
      FileParsed(fileLog);
    }

    /** A part of the buffer, and ftruncate(aof_fd, aof_current_size). */
    method WritePart(kept: nat, cutBack: bool)
      requires aofFd.Open? && aofFd.inode in disk && kept < |aofBuf| && currentSize == |disk[aofFd.inode]|
      modifies `disk
      ensures disk.Keys == old(disk.Keys)
      ensures cutBack ==> disk[aofFd.inode] == old(disk[aofFd.inode])
    {
      disk := disk[aofFd.inode := disk[aofFd.inode] + aofBuf[..kept]];
      if cutBack { disk := disk[aofFd.inode := disk[aofFd.inode][..currentSize]]; }
    }

    /** The write itself. */
    method WriteOut()
      requires aofFd.Open? && aofFd.inode in disk
      modifies `aofBuf, `disk, `currentSize, `fileLog, `bufLog, `flushed
      ensures disk == old(disk)[aofFd.inode := old(disk[aofFd.inode]) + old(aofBuf)] && aofBuf == []
      ensures currentSize == old(currentSize) + |old(aofBuf)|
      ensures fileLog == old(fileLog) + old(bufLog) && bufLog == [] && flushed == dataset
    {
      disk := disk[aofFd.inode := disk[aofFd.inode] + aofBuf];
      currentSize := currentSize + |aofBuf|;
      aofBuf := [];
      fileLog, bufLog, flushed := fileLog + bufLog, [], dataset;
    }

    /** rewriteAppendOnlyFileBackground: fork a child unless one is running. */
    method RewriteInBackground(forkOk: bool) returns (ok: bool)
      requires Valid()
      modifies `child, `selectedDb, `diffLog
      ensures Valid()
      ensures ok <==> old(child) == None && forkOk
      ensures ok ==> child == Some(dataset) && selectedDb == -1 && Holds(w, dump(dataset), diffLog, [], -1, dataset)
      ensures !ok ==> child == old(child) && selectedDb == old(selectedDb)
    {
      if child.Some? { return false; }
      if !forkOk { return false; }
      child := Some(dataset);
      selectedDb := -1;
      diffLog := [];
      assert RebuildsAt(w, dump, dataset);
      HoldsEmpty(w, dump(dataset), -1, dataset);
      return true;
    }

    /** aofRewriteBufferReset and the end of the child. */
    method Cleanup()
      modifies `child, rewriteBuf
      ensures child == None && rewriteBuf.Valid() && rewriteBuf.Contents() == []
    {
      rewriteBuf.Reset();
      child := None;
    }

    /** backgroundRewriteDoneHandler. The child wrote its whole file when it exited normally
        with code 0 (`exitOk`); opening that file, each write of the rewrite buffer and the
        rename may still fail. */
    method RewriteDone(exitOk: bool, openOk: bool, accepted: nat -> int, renameOk: bool) returns (swapped: bool)
      requires Valid() && child.Some?
      modifies `aofState, `selectedDb, `aofBuf, `disk, `named, `aofFd, `child, `nextInode, `currentSize, `fileLog,
        `bufLog, `flushed, rewriteBuf
      ensures Valid()
      ensures child == None
      ensures flushed == old(flushed) || flushed == dataset
      ensures swapped <==> exitOk && openOk && old(rewriteBuf.Accepted(accepted)) && renameOk
      ensures !swapped ==>
        aofState == old(aofState) && disk == old(disk) && named == old(named) && aofBuf == old(aofBuf)
      ensures swapped && old(aofState) == WaitRewrite ==> aofState == On
      ensures swapped && old(aofState) != WaitRewrite ==> aofState == old(aofState)
      ensures swapped ==> named.Some? && named.value in disk && named != old(named)
      ensures swapped && aofState == Off ==> Load(w, disk[named.value]) == Some(old(child).value)
    {
      if exitOk && openOk {
        var tmp := Stream(dump(child.value));
        var ok, newFile := rewriteBuf.WriteTo(tmp, accepted);
        if ok && renameOk {
          SnapshotLoads(child.value);
          Swap(newFile);
          return true;
        }
      }
      Cleanup();
      return false;
    }

    lemma SnapshotLoads(d: Data)
      requires Rebuilds(w, dump)
      ensures Load(w, Stream(dump(d)) + []) == Some(d)
    {
      assert RebuildsAt(w, dump, d);
      FileParsed(dump(d));
      assert Stream(dump(d)) + [] == Stream(dump(d));
    }

    /** rename(2) of the finished temporary file, and the switch of the descriptor. */
    method Swap(newFile: seq<Byte>)
      requires Valid() && child.Some? && newFile == Stream(dump(child.value)) + rewriteBuf.Contents()
      modifies `aofState, `selectedDb, `aofBuf, `disk, `named, `aofFd, `child, `nextInode, `currentSize, `fileLog,
        `bufLog, `flushed, rewriteBuf
      ensures Valid()
      ensures child == None
      ensures flushed == dataset
      ensures aofState == if old(aofState) == WaitRewrite then On else old(aofState)
      ensures named.Some? && named.value in disk && disk[named.value] == newFile && named != old(named)
      ensures old(aofState) == Off ==> newFile == Stream(dump(old(child).value)) + []
    {
      ghost var log := dump(child.value) + diffLog;
      if aofState != Off {
        assert RebuildsAt(w, dump, child.value);
        HoldsFlush(w, dump(child.value), diffLog, rewriteBuf.Contents(), selectedDb, dataset);
        HoldsForget(w, log, selectedDb, dataset);
        HoldsNothing(w, log, -1, dataset);
      }
      Install(newFile, log, dataset);
      if aofState == WaitRewrite { aofState := On; }
      Cleanup();
    }

    method Install(newFile: seq<Byte>, ghost log: seq<Request>, ghost data: Data)
      requires Inodes() && FileTracks(selectedDb, data) && selectedDb >= -1
      requires aofState != Off ==> AllStorable(log) && newFile == Stream(log) && Holds(w, log, [], [], -1, data)
      modifies `selectedDb, `aofBuf, `disk, `named, `aofFd, `nextInode, `currentSize, `fileLog, `bufLog, `flushed
      ensures Inodes() && selectedDb >= -1 && aofBuf == [] && named.Some? && named != old(named)
      ensures named.value in disk && disk[named.value] == newFile
      ensures fileLog == log && bufLog == [] && flushed == data
      ensures aofState != Off ==> aofFd == Open(named.value) && selectedDb == -1 && currentSize == |newFile|
    {
      var inode := nextInode;
      nextInode := nextInode + 1;
      disk := disk[inode := newFile];
      named := Some(inode);
      if aofFd != NoFd { // AOF enabled, or a descriptor left over by a failed start
        aofFd := Open(inode);
        selectedDb := -1;
        currentSize := |newFile|; // aofUpdateCurrentSize
        aofBuf := [];
      }
      fileLog, bufLog, flushed := log, [], data;
    }

    /** startAppendOnly: open the file and start a rewrite; the file is not on until it ends. */
    method StartAppendOnly(openOk: bool, forkOk: bool) returns (ok: bool)
      requires Valid() && aofState == Off
      modifies `aofState, `selectedDb, `disk, `named, `aofFd, `child, `nextInode, `diffLog
      ensures Valid()
      ensures ok <==> openOk && forkOk && old(child) == None
      ensures aofState == if ok then WaitRewrite else Off
    {
      if !openOk {
        aofFd := NoFd;
        return false;
      }
      OpenNamed();
      ok := RewriteInBackground(forkOk);
      if !ok {
        aofFd := Closed; // close() without resetting the field
        return false;
      }
      aofState := WaitRewrite;
    }

    /** open(aof_filename, O_WRONLY|O_APPEND|O_CREAT) */
    method OpenNamed()
      requires Valid() && aofState == Off
      modifies `disk, `named, `aofFd, `nextInode
      ensures Valid()
      ensures aofFd.Open?
    {
      if named == None {
        disk := disk[nextInode := []];
        named := Some(nextInode);
        nextInode := nextInode + 1;
      }
      aofFd := Open(named.value);
    }

    /** flushAppendOnlyFile(1): the file alone holds the dataset. */
    method FlushForced(result: WriteResult) returns (exited: bool)
      requires Valid()
      modifies `aofBuf, `disk, `currentSize, `fileLog, `bufLog, `flushed
      ensures !exited ==> Valid() && aofBuf == []
      ensures !exited && aofState == On ==>
        named.Some? && named.value in disk && Load(w, disk[named.value]) == Some(dataset)
      ensures exited ==> Stopped(result) && flushed == old(flushed)
      ensures flushed == old(flushed) || flushed == dataset
    {
      exited := Flush(false, result);
      if !exited && aofState == On {
        LoadsDataset();
        assert disk[named.value] + [] == disk[named.value];
      }
    }

    /** stopAppendOnly: flush, close, and kill a running child. */
    method StopAppendOnly(result: WriteResult) returns (exited: bool)
      requires Valid() && aofState != Off
      modifies `aofState, `selectedDb, `aofBuf, `disk, `aofFd, `child, `currentSize, `fileLog, `bufLog, `flushed,
        rewriteBuf
      ensures !exited ==> Valid()
      ensures !exited ==> aofState == Off && child == None && aofFd == NoFd
      ensures !exited && old(aofState) == On ==>
        named.Some? && named.value in disk && Load(w, disk[named.value]) == Some(dataset)
      ensures exited ==> Stopped(result) && flushed == old(flushed)
      ensures flushed == old(flushed) || flushed == dataset
    {
      exited := FlushForced(result);
      if exited { return; }
      SwitchOff();
    }

    method SwitchOff()
      requires Valid() && aofBuf == []
      modifies `aofState, `selectedDb, `aofFd, `child, rewriteBuf
      ensures Valid()
      ensures aofState == Off && child == None && aofFd == NoFd
    {
      aofFd := NoFd;
      selectedDb := -1;
      aofState := Off;
      if child.Some? { Cleanup(); }
    }
  }

  lemma StreamOfOne(r: Request)
    ensures Stream([r]) == EncodeRequest(r)
  {
    assert [r][1..] == [];
  }

  // ---------------------------------------------------------------- whole runs

  datatype Event =
    | Write(db: nat, c: Command, now: int)
    | FlushBuffer(postpone: bool, result: WriteResult)
    | Fork(ok: bool)
    | ChildExit(exitOk: bool, openOk: bool, accepted: nat -> int, renameOk: bool)
    | Start(openOk: bool, forkOk: bool)
    | Stop(result: WriteResult)

  ghost predicate Possible<Data>(w: World<Data>, e: Event) {
    e.Write? ==> WellFormed(e.c) && w.timeless(e.c) && e.db < 0x8000_0000
  }

  /** A flush that left a part of the buffer in the file. */
  ghost predicate Torn(e: Event) {
    (e.FlushBuffer? || e.Stop?) && e.result.Part? && !e.result.cutBack
  }

  method Handle<Data(!new)>(s: Server<Data>, e: Event) returns (exited: bool)
    requires s.Valid() && Possible(s.w, e)
    modifies s, s.rewriteBuf
    ensures !exited ==> s.Valid()
    ensures e.Write? ==> s.dataset == s.w.live(e.db, e.c, e.now, old(s.dataset)).data
    ensures !e.Write? ==> s.dataset == old(s.dataset)
    ensures s.flushed == old(s.flushed) || s.flushed == s.dataset
    ensures exited ==> s.named.Some? && s.named.value in s.disk && s.flushed == old(s.flushed)
    ensures exited && !Torn(e) ==> Load(s.w, s.disk[s.named.value]) == Some(s.flushed)
  {
    exited := false;
    match e
    case Write(db, c, now) => s.Execute(db, c, now);
    case FlushBuffer(postpone, result) => exited := s.Flush(postpone, result);
    case Fork(ok) => var _ := s.RewriteInBackground(ok);
    case ChildExit(exitOk, openOk, accepted, renameOk) =>
      if s.child.Some? { var _ := s.RewriteDone(exitOk, openOk, accepted, renameOk); }
    case Start(openOk, forkOk) =>
      if s.aofState == Off { var _ := s.StartAppendOnly(openOk, forkOk); }
    case Stop(result) =>
      if s.aofState != Off { exited := s.StopAppendOnly(result); }
  }

  /** The dataset after the writes of a run. */
  ghost function DataAfter<Data>(w: World<Data>, events: seq<Event>, d: Data): Data {
    if events == [] then d
    else
      var before := DataAfter(w, events[..|events| - 1], d);
      var e := events[|events| - 1];
      if e.Write? then w.live(e.db, e.c, e.now, before).data else before
  }

  /** d was the dataset at some moment of the run, or the one last written before it. */
  ghost predicate WasData<Data>(w: World<Data>, events: seq<Event>, d0: Data, earlier: Data, d: Data) {
    d == earlier || exists i :: 0 <= i <= |events| && d == DataAfter(w, events[..i], d0)
  }

  lemma WasDataLater<Data>(w: World<Data>, events: seq<Event>, n: nat, d0: Data, earlier: Data, d: Data)
    requires n <= |events| && WasData(w, events[..n], d0, earlier, d)
    ensures WasData(w, events, d0, earlier, d)
  {
    if d != earlier {
      var i :| 0 <= i <= n && d == DataAfter(w, events[..n][..i], d0);
      assert events[..n][..i] == events[..i];
    }
  }

  lemma IsDataNow<Data>(w: World<Data>, events: seq<Event>, d0: Data, earlier: Data)
    ensures WasData(w, events, d0, earlier, DataAfter(w, events, d0))
  {
    assert events[..|events|] == events;
  }

  /** What a run leaves behind: with the process alive, a file that with its buffer loads to the
      current dataset whenever it is on; after a flush that ended the process, a file that loads to
      the dataset of an earlier moment, unless it was torn. */
  ghost predicate Outcome<Data(!new)>(s: Server<Data>, events: seq<Event>, d0: Data, earlier: Data, exited: bool)
    reads s, s.rewriteBuf
  {
    && WasData(s.w, events, d0, earlier, s.flushed)
    && (if exited then
          && s.named.Some? && s.named.value in s.disk
          && ((exists e :: e in events && Torn(e)) || Load(s.w, s.disk[s.named.value]) == Some(s.flushed))
        else
          s.Valid() && s.dataset == DataAfter(s.w, events, d0))
  }

  /** Over every run of writes, flushes, forks, child exits, starts and stops, until a flush ends the
      process. */
  method Run<Data(!new)>(s: Server<Data>, events: seq<Event>) returns (exited: bool)
    requires s.Valid() && forall i :: 0 <= i < |events| ==> Possible(s.w, events[i])
    modifies s, s.rewriteBuf
    ensures Outcome(s, events, old(s.dataset), old(s.flushed), exited)
    ensures !exited && s.aofState == On ==>
      s.named.Some? && s.named.value in s.disk && Load(s.w, s.disk[s.named.value] + s.aofBuf) == Some(s.dataset)
    decreases |events|
  {
    ghost var d0, earlier := s.dataset, s.flushed;
    if events == [] {
      exited := false;
    } else {
      var n := |events| - 1;
      exited := Run(s, events[..n]);
      WasDataLater(s.w, events, n, d0, earlier, s.flushed);
      if exited { return; }
      exited := Handle(s, events[n]);
      assert events[n] in events;
      if !exited { IsDataNow(s.w, events, d0, earlier); }
    }
    if !exited && s.aofState == On { s.LoadsDataset(); }
  }
}
