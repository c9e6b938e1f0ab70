/** Pulling a kernel archive through the panel one chunk at a time, over a one-place channel that
  * may hold a reply to some earlier request. */
module Transfer {
  import opened Wrappers

  type Bytes = seq<bv8>

  datatype Slice = Slice(data: Bytes, last: bool)

  // ---------- the panel's side ----------

  function ChunkAt(archive: Bytes, off: int, n: nat): Result<Slice, string> {
    if off > |archive| || off < 0 then Err("outside the archive")
    else
      var size := if n > |archive| - off then |archive| - off else n;
      Ok(Slice(archive[off..off + size], off + size >= |archive|))
  }

  method ReadAt(archive: Bytes, buf: array<bv8>, off: nat) returns (read: nat)
    requires off + buf.Length <= |archive|
    modifies buf
    ensures read == buf.Length && buf[..] == archive[off..off + read]
  {
    read := 0;
    while read < buf.Length
      invariant read <= buf.Length && buf[..read] == archive[off..off + read]
    {
      buf[read] := archive[off + read];
      read := read + 1;
    }
  }

  // The archive does not change while it is read.
  method ReadChunk(archive: Bytes, off: int, n: nat) returns (r: Result<Slice, string>)
    ensures r == ChunkAt(archive, off, n)
  {
    if off > |archive| || off < 0 { return Err("outside the archive"); }
    var size := n;
    if size > |archive| - off { size := |archive| - off; }
    var buf := new bv8[size];
    var read := ReadAt(archive, buf, off);
    return Ok(Slice(buf[..], off + read >= |archive|));
  }

  // Asking from the start for slices of n and going on until the last one gives the archive.
  function Assembled(archive: Bytes, off: nat, n: nat): Bytes
    requires off <= |archive| && n > 0
    decreases |archive| - off
  {
    var s := ChunkAt(archive, off, n).value;
    s.data + if s.last then [] else Assembled(archive, off + |s.data|, n)
  }

  lemma {:induction false} AssembledIsTheArchive(archive: Bytes, off: nat, n: nat)
    requires off <= |archive| && n > 0
    ensures Assembled(archive, off, n) == archive[off..]
    decreases |archive| - off
  {
    var s := ChunkAt(archive, off, n).value;
    if !s.last { AssembledIsTheArchive(archive, off + |s.data|, n); }
  }

  // ---------- the channel ----------

  datatype Frame = Frame(version: string, offset: int, data: Bytes, last: bool, error: string)

  // A frame the panel sends: a refusal, or a slice of the archive it names, at its offset.
  ghost predicate Genuine(f: Frame, archives: string -> Bytes) {
    f.error != "" || exists n: nat :: ChunkAt(archives(f.version), f.offset, n) == Ok(Slice(f.data, f.last))
  }

  // What happens, in order: a frame comes in, the waiting download looks at the channel, its timer
  // fires, its context ends, the stream to the panel closes.
  datatype Signal = Arrive(frame: Frame) | Look | TimerFires | ContextEnds | StreamCloses

  ghost predicate AllGenuine(chunks: Option<Frame>, script: seq<Signal>, archives: string -> Bytes) {
    && (chunks.Some? ==> Genuine(chunks.value, archives))
    && forall i :: 0 <= i < |script| && script[i].Arrive? ==> Genuine(script[i].frame, archives)
  }

  datatype Reply = Data(slice: Slice) | Refused(message: string) | NoReply | Stopped

  datatype Awaited = Awaited(reply: Reply, chunks: Option<Frame>, pos: nat)

  function Delivered(chunks: Option<Frame>, f: Frame): Option<Frame> { if chunks.None? then Some(f) else chunks }

  predicate Answers(f: Frame, version: string, offset: int) { f.version == version && f.offset == offset }

  function AnswerOf(f: Frame): Reply { if f.error != "" then Refused(f.error) else Data(Slice(f.data, f.last)) }

  // Waiting for one reply, from position pos of what happens.
  function Await(chunks: Option<Frame>, script: seq<Signal>, pos: nat, version: string, offset: int): (a: Awaited)
    requires pos <= |script|
    ensures pos <= a.pos <= |script| && (a.reply.Data? ==> pos < a.pos)
    decreases |script| - pos
  {
    if pos == |script| then Awaited(NoReply, chunks, pos)
    else match script[pos]
      case Arrive(f) => Await(Delivered(chunks, f), script, pos + 1, version, offset)
      case TimerFires => Awaited(NoReply, chunks, pos + 1)
      case ContextEnds => Awaited(Stopped, chunks, pos + 1)
      case StreamCloses => Await(chunks, script, pos + 1, version, offset)
      case Look =>
        if chunks.None? then Await(chunks, script, pos + 1, version, offset)
        else if !Answers(chunks.value, version, offset) then Await(None, script, pos + 1, version, offset)
        else Awaited(AnswerOf(chunks.value), None, pos + 1)
  }

  // A slice handed over is one of the archive asked for, at the offset asked for.
  lemma {:induction false} HandedOverIsAsked(chunks: Option<Frame>, script: seq<Signal>, pos: nat, version: string,
                                             offset: int, archives: string -> Bytes)
    requires pos <= |script| && AllGenuine(chunks, script, archives)
    ensures var a := Await(chunks, script, pos, version, offset);
            && AllGenuine(a.chunks, script, archives)
            && (a.reply.Data? ==> exists n: nat :: ChunkAt(archives(version), offset, n) == Ok(a.reply.slice))
    decreases |script| - pos
  {
    if pos < |script| {
      match script[pos]
      case Arrive(f) => HandedOverIsAsked(Delivered(chunks, f), script, pos + 1, version, offset, archives);
      case StreamCloses => HandedOverIsAsked(chunks, script, pos + 1, version, offset, archives);
      case Look =>
        if chunks.None? { HandedOverIsAsked(chunks, script, pos + 1, version, offset, archives); }
        else if !Answers(chunks.value, version, offset) { HandedOverIsAsked(None, script, pos + 1, version, offset, archives); }
      case _ =>
    }
  }

  // ---------- the whole transfer ----------

  // How many writes succeed, how much of a failing one still lands, whether the final sync does.
  datatype Disk = Disk(writes: nat, landed: nat, syncs: bool)

  datatype Pulled = Pulled(file: Bytes, ok: bool, asked: seq<int>, chunks: Option<Frame>)

  function Landed(disk: Disk, data: Bytes): Bytes { data[..if disk.landed < |data| then disk.landed else |data|] }

  function Asking(asked: seq<int>, p: Pulled): Pulled { p.(asked := asked + p.asked) }

  // The download from the point where file has been written.
  function Pull(chunks: Option<Frame>, script: seq<Signal>, pos: nat, version: string, file: Bytes, disk: Disk): Pulled
    requires pos <= |script|
    decreases |script| - pos
  {
    if pos == |script| || script[pos].StreamCloses? then Pulled(file, false, [], chunks)
    else
      var offset := |file|;
      var a := Await(chunks, script, pos, version, offset);
      if !a.reply.Data? then Pulled(file, false, [offset], a.chunks)
      else
        var data, last := a.reply.slice.data, a.reply.slice.last;
        if |data| > 0 && disk.writes == 0 then Pulled(file + Landed(disk, data), false, [offset], a.chunks)
        else if last then Pulled(file + data, disk.syncs, [offset], a.chunks)
        else if |data| == 0 then Pulled(file, false, [offset], a.chunks)
        else
          Asking([offset], Pull(a.chunks, script, a.pos, version, file + data, disk.(writes := disk.writes - 1)))
  }

  lemma AskingOneMore(asked: seq<int>, offset: int, p: Pulled)
    ensures Asking(asked, Asking([offset], p)) == Asking(asked + [offset], p)
  {
    assert asked + ([offset] + p.asked) == asked + [offset] + p.asked;
  }

  // A chunk that neither ends the transfer nor fails to be written leads on to the next.
  lemma PullGoesOn(chunks: Option<Frame>, script: seq<Signal>, pos: nat, version: string, file: Bytes, disk: Disk,
                   a: Awaited, asked: seq<int>)
    requires pos < |script| && !script[pos].StreamCloses? && a == Await(chunks, script, pos, version, |file|)
    requires a.reply.Data? && |a.reply.slice.data| > 0 && disk.writes > 0 && !a.reply.slice.last
    ensures Asking(asked, Pull(chunks, script, pos, version, file, disk)) ==
            Asking(asked + [|file|], Pull(a.chunks, script, a.pos, version, file + a.reply.slice.data, disk.(writes := disk.writes - 1)))
  {
    AskingOneMore(asked, |file|, Pull(a.chunks, script, a.pos, version, file + a.reply.slice.data, disk.(writes := disk.writes - 1)));
  }

  lemma SliceExtends(archive: Bytes, file: Bytes, s: Slice)
    requires file <= archive && exists n: nat :: ChunkAt(archive, |file|, n) == Ok(s)
    ensures file + s.data <= archive && (s.last <==> file + s.data == archive)
    ensures forall k :: 0 <= k <= |s.data| ==> file + s.data[..k] <= archive
  {
    assert archive == file + archive[|file|..];
    assert s.data <= archive[|file|..];
  }

  // Whatever stale, duplicated or dropped frames there are: the file is a prefix of the archive
  // throughout, and the whole of it when the download reports success.
  lemma {:induction false} FileIsAPrefix(chunks: Option<Frame>, script: seq<Signal>, pos: nat, version: string, file: Bytes,
                                         disk: Disk, archives: string -> Bytes)
    requires pos <= |script| && AllGenuine(chunks, script, archives) && file <= archives(version)
    ensures var p := Pull(chunks, script, pos, version, file, disk);
            p.file <= archives(version) && (p.ok ==> p.file == archives(version))
    decreases |script| - pos
  {
    if pos < |script| && !script[pos].StreamCloses? {
      var a := Await(chunks, script, pos, version, |file|);
      HandedOverIsAsked(chunks, script, pos, version, |file|, archives);
      if a.reply.Data? {
        var s := a.reply.slice;
        SliceExtends(archives(version), file, s);
        if !(|s.data| > 0 && disk.writes == 0) && !s.last && |s.data| > 0 {
          FileIsAPrefix(a.chunks, script, a.pos, version, file + s.data, disk.(writes := disk.writes - 1), archives);
        }
      }
    }
  }

  // Success also means the disk took the file: the last sync went through, and so did a write if anything was written.
  lemma {:induction false} SuccessIsOnDisk(chunks: Option<Frame>, script: seq<Signal>, pos: nat, version: string, file: Bytes, disk: Disk)
    requires pos <= |script|
    ensures var p := Pull(chunks, script, pos, version, file, disk);
            p.ok ==> disk.syncs && (|p.file| > |file| ==> disk.writes > 0) && |p.asked| > 0
    decreases |script| - pos
  {
    if pos < |script| && !script[pos].StreamCloses? {
      var a := Await(chunks, script, pos, version, |file|);
      if a.reply.Data? {
        var s := a.reply.slice;
        if !(|s.data| > 0 && disk.writes == 0) && !s.last && |s.data| > 0 {
          SuccessIsOnDisk(a.chunks, script, a.pos, version, file + s.data, disk.(writes := disk.writes - 1));
        }
      }
    }
  }

  // Each request is for the next byte the file lacks, so offsets only grow.
  lemma {:induction false} OffsetsGrow(chunks: Option<Frame>, script: seq<Signal>, pos: nat, version: string, file: Bytes, disk: Disk)
    requires pos <= |script|
    ensures var p := Pull(chunks, script, pos, version, file, disk);
            && (forall i :: 0 <= i < |p.asked| ==> |file| <= p.asked[i] <= |p.file|)
            && (forall i, j :: 0 <= i < j < |p.asked| ==> p.asked[i] < p.asked[j])
            && file <= p.file
    decreases |script| - pos
  {
    if pos < |script| && !script[pos].StreamCloses? {
      var a := Await(chunks, script, pos, version, |file|);
      if a.reply.Data? {
        var s := a.reply.slice;
        if !(|s.data| > 0 && disk.writes == 0) && !s.last && |s.data| > 0 {
          OffsetsGrow(a.chunks, script, a.pos, version, file + s.data, disk.(writes := disk.writes - 1));
        }
      }
    }
  }

  // Every request answered in turn, in slices of n.
  function Answered(archive: Bytes, version: string, off: nat, n: nat): seq<Signal>
    requires off <= |archive| && n > 0
    decreases |archive| - off
  {
    var s := ChunkAt(archive, off, n).value;
    [Arrive(Frame(version, off, s.data, s.last, "")), Look] +
    if s.last then [] else Answered(archive, version, off + |s.data|, n)
  }

  lemma AnswerArrives(script: seq<Signal>, at: nat, f: Frame, version: string, offset: int)
    requires at + 1 < |script| && script[at] == Arrive(f) && script[at + 1] == Look && Answers(f, version, offset)
    ensures Await(None, script, at, version, offset) == Awaited(AnswerOf(f), None, at + 2)
  {
    assert Await(Some(f), script, at + 1, version, offset) == Awaited(AnswerOf(f), None, at + 2);
  }

  lemma SliceOf(archive: Bytes, file: Bytes, n: nat)
    requires file <= archive && n > 0
    ensures var s := ChunkAt(archive, |file|, n).value;
            file + s.data <= archive && (s.last <==> file + s.data == archive) && (!s.last ==> |s.data| > 0) &&
            (|file| < |archive| ==> |s.data| > 0)
  {
    assert archive == file + archive[|file|..];
  }

  // Then the transfer succeeds.
  lemma {:induction false} AnsweredSucceeds(archive: Bytes, version: string, file: Bytes, n: nat, before: seq<Signal>, disk: Disk)
    requires file <= archive && n > 0 && disk.syncs && disk.writes >= |archive| - |file|
    ensures var p := Pull(None, before + Answered(archive, version, |file|, n), |before|, version, file, disk);
            p.ok && p.file == archive
    decreases |archive| - |file|
  {
    var rest := Answered(archive, version, |file|, n);
    var script := before + rest;
    var s := ChunkAt(archive, |file|, n).value;
    var f := Frame(version, |file|, s.data, s.last, "");
    SliceOf(archive, file, n);
    assert script[|before|] == rest[0] && script[|before| + 1] == rest[1];
    AnswerArrives(script, |before|, f, version, |file|);
    if !s.last {
      var sofar := before + [Arrive(f), Look];
      assert script == sofar + Answered(archive, version, |file + s.data|, n);
      AnsweredSucceeds(archive, version, file + s.data, n, sofar, disk.(writes := disk.writes - 1));
      PullGoesOn(None, script, |before|, version, file, disk, Awaited(Data(s), None, |sofar|), []);
    }
  }

  // A stale frame looked at in time costs nothing; still in the channel when the answer comes, it
  // crowds the answer out. Neither puts a wrong byte in the file.
  lemma StaleFrames(stale: Frame, answer: Frame, version: string, offset: int, rest: seq<Signal>)
    requires !Answers(stale, version, offset) && Answers(answer, version, offset)
    ensures Await(None, [Arrive(stale), Look, Arrive(answer), Look] + rest, 0, version, offset).reply == AnswerOf(answer)
    ensures Await(None, [Arrive(stale), Arrive(answer), Look, TimerFires] + rest, 0, version, offset).reply == NoReply
  {
    var inTime := [Arrive(stale), Look, Arrive(answer), Look] + rest;
    assert Await(Some(answer), inTime, 3, version, offset).reply == AnswerOf(answer);
    assert Await(None, inTime, 2, version, offset).reply == AnswerOf(answer);
    assert Await(Some(stale), inTime, 1, version, offset).reply == AnswerOf(answer);
    var late := [Arrive(stale), Arrive(answer), Look, TimerFires] + rest;
    assert Await(None, late, 3, version, offset).reply == NoReply;
    assert Await(Some(stale), late, 2, version, offset).reply == NoReply;
    assert Await(Some(stale), late, 1, version, offset).reply == NoReply;
  }

  // ---------- the agent ----------

  class InstallState {
    // "" when idle
    var running: string
    var chunks: Option<Frame>

    constructor ()
      ensures running == "" && chunks == None
    {
      running, chunks := "", None;
    }

    // Claims the slot and discards what an earlier transfer left; a refused claim leaves the
    // running transfer's reply where it is.
    method Begin(version: string) returns (ok: bool)
      modifies this
      ensures ok <==> old(running) == ""
      ensures ok ==> running == version && chunks == None
      ensures !ok ==> running == old(running) && chunks == old(chunks)
    {
      if running != "" { return false; }
      running, chunks := version, None;
      return true;
    }

    method End()
      modifies this`running
      ensures running == ""
    {
      running := "";
    }

    method Deliver(f: Frame)
      modifies this`chunks
      ensures chunks == Delivered(old(chunks), f)
    {
      if chunks.None? { chunks := Some(f); }
    }

    method Chunk(script: seq<Signal>, pos: nat, version: string, offset: int) returns (reply: Reply, next: nat)
      requires pos <= |script|
      modifies this`chunks
      ensures Awaited(reply, chunks, next) == Await(old(chunks), script, pos, version, offset)
    {
      next := pos;
      while next < |script|
        invariant pos <= next <= |script|
        invariant Await(old(chunks), script, pos, version, offset) == Await(chunks, script, next, version, offset)
      {
        var signal := script[next];
        next := next + 1;
        match signal
        case Arrive(f) => Deliver(f);
        case TimerFires => return NoReply, next;
        case ContextEnds => return Stopped, next;
        case StreamCloses =>
        case Look =>
          if chunks.Some? {
            var f := chunks.value;
            chunks := None;
            if f.version == version && f.offset == offset {
              if f.error != "" { return Refused(f.error), next; }
              return Data(Slice(f.data, f.last)), next;
            }
          }
      }
      return NoReply, next;
    }

    method DownloadViaRelay(script: seq<Signal>, version: string, disk: Disk)
      returns (file: Bytes, ok: bool, ghost asked: seq<int>)
      modifies this`chunks
      ensures Pulled(file, ok, asked, chunks) == Pull(old(chunks), script, 0, version, [], disk)
    {
      ok := false;
      file, asked := [], [];
      var offset, pos, left := 0, 0, disk;
      ghost var whole := Pull(chunks, script, 0, version, [], disk);
      while pos < |script| && !script[pos].StreamCloses?
        invariant pos <= |script| && offset == |file|
        invariant whole == Asking(asked, Pull(chunks, script, pos, version, file, left))
        decreases |script| - pos
      {
        ghost var was, at := chunks, pos;
        var reply, next := Chunk(script, pos, version, offset);
        pos := next;
        ghost var a := Awaited(reply, chunks, pos);
        if !reply.Data? {
          asked := asked + [offset];
          return;
        }
        var data := reply.slice.data;
        if |data| > 0 && left.writes == 0 {
          file, ok, asked := file + Landed(left, data), false, asked + [offset];
          return;
        }
        if reply.slice.last || |data| == 0 {
          file, ok, asked := file + data, reply.slice.last && left.syncs, asked + [offset];
          return;
        }
        PullGoesOn(was, script, at, version, file, left, a, asked);
        asked := asked + [offset];
        left := left.(writes := left.writes - 1);
        file := file + data;
        offset := offset + |data|;
      }
      assert asked + [] == asked;
    }

    // One install's transfer, from claiming the slot to giving it back.
    method Transfer(script: seq<Signal>, version: string, disk: Disk, ghost archives: string -> Bytes)
      returns (file: Bytes, ok: bool)
      modifies this
      ensures old(running) != "" ==> !ok && running == old(running) && chunks == old(chunks)
      ensures old(running) == "" ==> running == ""
      ensures AllGenuine(None, script, archives) ==> file <= archives(version) && (ok ==> file == archives(version))
      ensures ok ==> disk.syncs && (file != [] ==> disk.writes > 0)
    {
      var claimed := Begin(version);
      if !claimed { return [], false; }
      ghost var asked;
      file, ok, asked := DownloadViaRelay(script, version, disk);
      SuccessIsOnDisk(None, script, 0, version, [], disk);
      if AllGenuine(None, script, archives) { FileIsAPrefix(None, script, 0, version, [], disk, archives); }
      End();
    }
  }
}
