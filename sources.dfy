/**
 * The processors of src/FileUtils.ts that read files: GlobRead and
 * ReadFolder produce them, GetFileFromFolder fetches the files named by its
 * input. Each routes a file by a size: strictly more than 5 MiB is
 * streamed, anything else is sent whole. GlobRead and GetFileFromFolder use
 * the file's own size; ReadFolder uses the `stat` size of the folder itself.
 */
module Sources {
  import opened Wrappers
  import opened Events
  import opened FileChunks
  import opened Runs

  // ----- GlobRead -----

  /**
   * `Promise.all` over one `readFile` per matched path: every file's
   * contents in match order, or None when any read throws.
   */
  function ReadAll(results: seq<Option<Bytes>>): (r: Option<seq<Bytes>>)
    ensures r.Some? <==> forall i :: 0 <= i < |results| ==> results[i].Some?
    ensures r.Some? ==> |r.value| == |results| && forall i :: 0 <= i < |results| ==> results[i] == Some(r.value[i])
  {
    if results == [] then Some([])
    else
      match (results[0], ReadAll(results[1..]))
      case (Some(file), Some(rest)) => Some([file] + rest)
      case _ => None
  }

  /** The one emission GlobRead.produce makes for a file. */
  function GlobFileEvent(file: Bytes): Event
  {
    if |file| > STREAM_THRESHOLD then Stream([file]) else Buffer(file)
  }

  /** The events of GlobRead.produce's loop: per file its emission, then the `wait` timer. */
  function GlobReadItems(files: seq<Bytes>, wait: int): seq<Event>
  {
    FlatMap(files, (f: Bytes) => [GlobFileEvent(f), Pause(wait)])
  }

  /** Everything GlobRead.produce does to its writer. */
  function GlobReadLog(files: seq<Bytes>, wait: int, closeOnEnd: bool): seq<Event>
  {
    GlobReadItems(files, wait) + (if closeOnEnd then [Close] else [])
  }

  class GlobRead {
    var wait: int
    var closeOnEnd: bool
    var binary: bool
    var files: seq<Bytes>

    constructor ()
      ensures files == []
    {
      wait, closeOnEnd, binary := 0, true, false;
      files := [];
    }

    /**
     * `init`: fills in the defaults of the optional arguments, then reads
     * every file the glob pattern matched (`results`, in match order; None
     * for a read that throws). Returns false when `init` rejects.
     */
    method Init(wait: Option<int>, closeOnEnd: Option<bool>, binary: Option<bool>, results: seq<Option<Bytes>>)
      returns (ok: bool)
      modifies this
      ensures this.wait == wait.GetOr(0)
      ensures this.closeOnEnd == closeOnEnd.GetOr(true)
      ensures this.binary == binary.GetOr(false)
      ensures ok == ReadAll(results).Some?
      ensures files == if ok then ReadAll(results).value else old(files)
    {
      this.wait := wait.GetOr(0);
      this.closeOnEnd := closeOnEnd.GetOr(true);
      this.binary := binary.GetOr(false);
      var all := ReadAll(results);
      ok := all.Some?;
      if ok {
        files := all.value;
      }
    }

    /** `produce`: every file in order, each followed by the `wait` timer, then `close()` if `closeOnEnd`. */
    method Produce(w: Writer)
      modifies w
      ensures w.events == old(w.events) + GlobReadLog(files, wait, closeOnEnd)
    {
      var timer := wait;
      for i := 0 to |files|
        invariant w.events == old(w.events) + GlobReadItems(files[..i], timer)
      {
        FlatMapSnoc(files, i, (f: Bytes) => [GlobFileEvent(f), Pause(timer)]);
        var file := files[i];
        if |file| > STREAM_THRESHOLD {
          w.Stream([file]);
        } else {
          w.Buffer(file);
        }
        w.Sleep(timer);
      }
      assert files[..|files|] == files;
      if closeOnEnd {
        w.Close();
      }
    }
  }

  /** The loop's events alternate: file i's emission at 2i, its `wait` timer at 2i + 1. */
  lemma {:induction false} GlobReadShape(files: seq<Bytes>, wait: int)
    ensures |GlobReadItems(files, wait)| == 2 * |files|
    ensures forall i :: 0 <= i < |files| ==>
              GlobReadItems(files, wait)[2 * i] == GlobFileEvent(files[i]) &&
              GlobReadItems(files, wait)[2 * i + 1] == Pause(wait)
    decreases |files|
  {
    if files != [] {
      var n := |files| - 1;
      GlobReadShape(files[..n], wait);
      assert forall i :: 0 <= i < n ==> files[..n][i] == files[i];
      assert GlobReadItems(files, wait) == GlobReadItems(files[..n], wait) + [GlobFileEvent(files[n]), Pause(wait)];
    }
  }

  lemma {:induction false} GlobReadItemsCounts(files: seq<Bytes>, wait: int)
    ensures |Payloads(GlobReadItems(files, wait))| == |files|
    ensures forall i :: 0 <= i < |files| ==> Payloads(GlobReadItems(files, wait))[i] == GlobFileEvent(files[i])
    ensures Pauses(GlobReadItems(files, wait)) == |files|
    ensures Closes(GlobReadItems(files, wait)) == 0
    decreases |files|
  {
    if files != [] {
      var n := |files| - 1;
      var prev := GlobReadItems(files[..n], wait);
      var last: seq<Event> := [GlobFileEvent(files[n]), Pause(wait)];
      GlobReadItemsCounts(files[..n], wait);
      assert GlobReadItems(files, wait) == prev + last;
      PayloadsAppend(prev, last);
      PausesAppend(prev, last);
      ClosesAppend(prev, last);
      assert last[1..] == [Pause(wait)];
      assert last[1..][1..] == [];
      assert Payloads(last) == [GlobFileEvent(files[n])];
      assert !GlobFileEvent(files[n]).Pause? && !GlobFileEvent(files[n]).Close?;
      assert Pauses(last[1..]) == 1 && Closes(last[1..]) == 0 by {
        assert Pauses(last[1..][1..]) == 0;
      }
      assert forall i :: 0 <= i < n ==> files[..n][i] == files[i];
    }
  }

  /**
   * GlobRead emits exactly one item per file, in file order, and one `wait`
   * timer per file, the last file included; it closes its writer once, as its
   * final act, exactly when `closeOnEnd` is set, and never otherwise.
   */
  lemma GlobReadOnePerFile(files: seq<Bytes>, wait: int, closeOnEnd: bool)
    ensures |Payloads(GlobReadLog(files, wait, closeOnEnd))| == |files|
    ensures forall i :: 0 <= i < |files| ==> Payloads(GlobReadLog(files, wait, closeOnEnd))[i] == GlobFileEvent(files[i])
    ensures Pauses(GlobReadLog(files, wait, closeOnEnd)) == |files|
    ensures closeOnEnd ==> ClosedOnceAtEnd(GlobReadLog(files, wait, closeOnEnd))
    ensures !closeOnEnd ==> Closes(GlobReadLog(files, wait, closeOnEnd)) == 0
  {
    var items := GlobReadItems(files, wait);
    var tail: seq<Event> := if closeOnEnd then [Close] else [];
    GlobReadItemsCounts(files, wait);
    PayloadsAppend(items, tail);
    PausesAppend(items, tail);
    ClosesAppend(items, tail);
    if closeOnEnd {
      CloseOnce(items);
    } else {
      assert GlobReadLog(files, wait, closeOnEnd) == items;
    }
  }

  /**
   * Size routing in GlobRead: a file is streamed, as one chunk holding the
   * whole file, exactly when it is larger than 5 MiB; otherwise it is sent as
   * one buffer. Either way the bytes delivered are the file's.
   */
  lemma GlobFileRouting(file: Bytes)
    ensures GlobFileEvent(file).Stream? <==> |file| > 5 * 1024 * 1024
    ensures GlobFileEvent(file).Stream? ==> GlobFileEvent(file).chunks == [file] && Flatten(GlobFileEvent(file).chunks) == file
    ensures GlobFileEvent(file).Buffer? <==> |file| <= 5 * 1024 * 1024
    ensures GlobFileEvent(file).Buffer? ==> GlobFileEvent(file).bytes == file
  {
    assert Flatten([file]) == file + Flatten([]);
  }

  // ----- ReadFolder -----

  /**
   * The folder as ReadFolder.produce sees it: the size `stat` reports for
   * the folder path itself, and the regular files under it by the relative
   * name `readdir` lists them under. A listed name that is not a regular file
   * (a sub-directory) makes `readFile` throw.
   */
  datatype Folder = Folder(size: nat, files: map<string, Bytes>)

  /**
   * The watchdog's test: the heap sample, in bytes, exceeds `maxMemory` GiB.
   * `maxMemory` is a JavaScript number, so a fractional limit is allowed.
   */
  predicate OverMemory(heapUsed: nat, maxMemory: real)
  {
    heapUsed as real > maxMemory * 1073741824.0
  }

  /** The memory watchdog: a `pause` ms wait when the heap sample exceeds `maxMemory` GiB. */
  function WatchdogPause(heapUsed: nat, maxMemory: real, pause: int): seq<Event>
  {
    if OverMemory(heapUsed, maxMemory) then [Pause(pause)] else []
  }

  /**
   * The emission for one listed name. The stream-or-buffer choice is made on
   * the size of the folder, not of the file, as the `stat` call does.
   */
  function FolderEvent(folder: Folder, name: string): Option<Event>
  {
    if name !in folder.files then None
    else if folder.size > STREAM_THRESHOLD then Some(Stream(Chunks(folder.files[name], CHUNK_SIZE)))
    else Some(Buffer(folder.files[name]))
  }

  /** A fractional limit: with `maxMemory` 1.5, one byte above 1.5 GiB pauses and exactly 1.5 GiB does not. */
  lemma FractionalLimit(maxMemory: real, limitBytes: nat, pause: int)
    requires maxMemory == 1.5 && limitBytes == 1610612736
    ensures WatchdogPause(limitBytes + 1, maxMemory, pause) == [Pause(pause)]
    ensures WatchdogPause(limitBytes, maxMemory, pause) == []
  {
  }

  /** The iterations of ReadFolder.produce: per name the watchdog check, then the read. */
  function ReadFolderSteps(folder: Folder, names: seq<string>, heap: seq<nat>, maxMemory: real, pause: int): seq<Step>
    requires |heap| == |names|
  {
    seq(|names|, i requires 0 <= i < |names| =>
      Step(WatchdogPause(heap[i], maxMemory, pause), FolderEvent(folder, names[i])))
  }

  /** The number of heap samples above `maxMemory` GiB. */
  function OverLimit(heap: seq<nat>, maxMemory: real): nat
    decreases |heap|
  {
    if heap == [] then 0
    else OverLimit(heap[..|heap| - 1], maxMemory) + (if OverMemory(heap[|heap| - 1], maxMemory) then 1 else 0)
  }

  /**
   * One iteration of ReadFolder.produce: the watchdog check on the heap
   * sample taken then, and the file streamed in chunks or sent as one buffer
   * by the folder's size. Returns false when the read throws.
   */
  method FolderIteration(w: Writer, dir: Folder, name: string, heapUsed: nat, maxMemory: real, pause: int)
    returns (ok: bool)
    modifies w
    ensures ok == (name in dir.files)
    ensures w.events == old(w.events) + WatchdogPause(heapUsed, maxMemory, pause) + ItemLog(FolderEvent(dir, name))
  {
    if OverMemory(heapUsed, maxMemory) {
      w.Sleep(pause);
    }
    if name !in dir.files {
      return false;
    }
    var data := dir.files[name];
    if dir.size > STREAM_THRESHOLD {
      var chunks := ReadFileInChunks(data, CHUNK_SIZE);
      w.Stream(chunks);
    } else {
      w.Buffer(data);
    }
    return true;
  }

  /** One more iteration of ReadFolder.produce's loop extends the run so far by that iteration's step. */
  method FolderStep(w: Writer, dir: Folder, names: seq<string>, heap: seq<nat>, maxMemory: real, pause: int,
                    i: nat, ghost start: seq<Event>)
    returns (ok: bool)
    requires |heap| == |names| && i < |names|
    requires RunSteps(ReadFolderSteps(dir, names, heap, maxMemory, pause)[..i]).completed
    requires w.events == start + RunSteps(ReadFolderSteps(dir, names, heap, maxMemory, pause)[..i]).log
    modifies w
    ensures ok == RunSteps(ReadFolderSteps(dir, names, heap, maxMemory, pause)[..i + 1]).completed
    ensures w.events == start + RunSteps(ReadFolderSteps(dir, names, heap, maxMemory, pause)[..i + 1]).log
  {
    ghost var steps := ReadFolderSteps(dir, names, heap, maxMemory, pause);
    RunSnoc(steps, i);
    assert steps[i] == Step(WatchdogPause(heap[i], maxMemory, pause), FolderEvent(dir, names[i]));
    ok := FolderIteration(w, dir, names[i], heap[i], maxMemory, pause);
  }

  /** The loop of ReadFolder.produce over the listed names. */
  method ProduceFolder(w: Writer, dir: Folder, names: seq<string>, heap: seq<nat>, maxMemory: real, pause: int)
    returns (completed: bool)
    requires |heap| == |names|
    modifies w
    ensures completed == RunSteps(ReadFolderSteps(dir, names, heap, maxMemory, pause)).completed
    ensures w.events == old(w.events) + StageLog(RunSteps(ReadFolderSteps(dir, names, heap, maxMemory, pause)))
  {
    ghost var steps := ReadFolderSteps(dir, names, heap, maxMemory, pause);
    for i := 0 to |names|
      invariant RunSteps(steps[..i]).completed
      invariant w.events == old(w.events) + RunSteps(steps[..i]).log
    {
      var ok := FolderStep(w, dir, names, heap, maxMemory, pause, i, old(w.events));
      if !ok {
        RunStuck(steps, i + 1);
        return false;
      }
    }
    assert steps[..|names|] == steps;
    w.Close();
    return true;
  }

  class ReadFolder {
    var folder: string
    var maxMemory: real
    var pause: int
    /** The listing `init` read; None while it is unset (`undefined`). */
    var fileNames: Option<seq<string>>

    constructor (folder: string)
      ensures this.folder == folder && fileNames == None
    {
      this.folder := folder;
      maxMemory, pause := 3.0, 5000;
      fileNames := None;
    }

    /**
     * `init`: fills in the defaults, checks that the folder exists and lists
     * it recursively (`listing`; None when `access` or `readdir` throws).
     * Returns false when `init` rejects.
     */
    method Init(maxMemory: Option<real>, pause: Option<int>, listing: Option<seq<string>>) returns (ok: bool)
      modifies this
      ensures this.maxMemory == maxMemory.GetOr(3.0) && this.pause == pause.GetOr(5000)
      ensures folder == old(folder)
      ensures ok == listing.Some?
      ensures fileNames == if ok then listing else old(fileNames)
    {
      this.maxMemory := maxMemory.GetOr(3.0);
      this.pause := pause.GetOr(5000);
      ok := listing.Some?;
      if ok {
        fileNames := listing;
      }
    }

    /**
     * `produce`: for every listed name, in listing order, the watchdog check
     * on the next heap sample (`heap[i]`, taken before that name is handled),
     * then the file as a stream or a buffer; `close()` after the last one.
     * Returns false when a read throws, which ends the loop and the stage
     * without closing the writer. Without a listing (no successful `init`)
     * iterating `undefined` throws at once: nothing is written.
     */
    method Produce(w: Writer, dir: Folder, heap: seq<nat>) returns (completed: bool)
      requires fileNames.Some? ==> |heap| == |fileNames.value|
      modifies w
      ensures fileNames.None? ==> !completed && w.events == old(w.events)
      ensures fileNames.Some? ==>
                completed == RunSteps(ReadFolderSteps(dir, fileNames.value, heap, maxMemory, pause)).completed
      ensures fileNames.Some? ==>
                w.events == old(w.events) + StageLog(RunSteps(ReadFolderSteps(dir, fileNames.value, heap, maxMemory, pause)))
    {
      if fileNames.None? {
        return false;
      }
      completed := ProduceFolder(w, dir, fileNames.value, heap, maxMemory, pause);
    }
  }

  lemma ReadFolderWellFormed(folder: Folder, names: seq<string>, heap: seq<nat>, maxMemory: real, pause: int)
    requires |heap| == |names|
    ensures WellFormed(ReadFolderSteps(folder, names, heap, maxMemory, pause))
  {
    var steps := ReadFolderSteps(folder, names, heap, maxMemory, pause);
    forall i | 0 <= i < |steps|
      ensures Payloads(steps[i].before) == [] && Closes(steps[i].before) == 0
    {
      if OverMemory(heap[i], maxMemory) {
        assert steps[i].before == [Pause(pause)];
      }
    }
  }

  /**
   * ReadFolder emits one item per listed name, in listing order, whatever the
   * heap samples: the loop completes exactly when every name is a readable
   * file; otherwise it stops at the first one that is not, having emitted all
   * the files before it. Its writer is closed once, last, exactly when the
   * loop completes.
   */
  lemma ReadFolderEmitsEachFile(folder: Folder, names: seq<string>, heap: seq<nat>, maxMemory: real, pause: int)
    requires |heap| == |names|
    ensures var run := RunSteps(ReadFolderSteps(folder, names, heap, maxMemory, pause));
            var out := Payloads(run.log);
            && (run.completed <==> forall i :: 0 <= i < |names| ==> names[i] in folder.files)
            && |out| <= |names|
            && (forall i :: 0 <= i < |out| ==> FolderEvent(folder, names[i]) == Some(out[i]))
            && (run.completed ==> |out| == |names|)
            && (!run.completed ==> |out| < |names| && names[|out|] !in folder.files)
    ensures var run := RunSteps(ReadFolderSteps(folder, names, heap, maxMemory, pause));
            (run.completed ==> ClosedOnceAtEnd(StageLog(run))) && (!run.completed ==> Closes(StageLog(run)) == 0)
  {
    var steps := ReadFolderSteps(folder, names, heap, maxMemory, pause);
    ReadFolderWellFormed(folder, names, heap, maxMemory, pause);
    RunOutcome(steps);
    StageCloses(steps);
    var k := FirstFailure(steps);
    if k < |steps| {
      assert steps[k].item.None?;
    }
    forall i | 0 <= i < k ensures names[i] in folder.files {
      assert steps[i].item.Some?;
    }
  }

  /** The watchdog only ever adds waits: two runs over the same files with any heap samples emit the same items. */
  lemma WatchdogNeverDrops(folder: Folder, names: seq<string>, heap1: seq<nat>, heap2: seq<nat>,
                           maxMemory: real, pause: int)
    requires |heap1| == |names| && |heap2| == |names|
    ensures RunSteps(ReadFolderSteps(folder, names, heap1, maxMemory, pause)).completed ==
            RunSteps(ReadFolderSteps(folder, names, heap2, maxMemory, pause)).completed
    ensures Payloads(RunSteps(ReadFolderSteps(folder, names, heap1, maxMemory, pause)).log) ==
            Payloads(RunSteps(ReadFolderSteps(folder, names, heap2, maxMemory, pause)).log)
  {
    var out1 := Payloads(RunSteps(ReadFolderSteps(folder, names, heap1, maxMemory, pause)).log);
    var out2 := Payloads(RunSteps(ReadFolderSteps(folder, names, heap2, maxMemory, pause)).log);
    ReadFolderEmitsEachFile(folder, names, heap1, maxMemory, pause);
    ReadFolderEmitsEachFile(folder, names, heap2, maxMemory, pause);
    assert |out1| == |out2|;
    forall i | 0 <= i < |out1| ensures out1[i] == out2[i] {
      assert FolderEvent(folder, names[i]) == Some(out1[i]);
    }
  }

  lemma {:induction false} WatchdogCount(folder: Folder, names: seq<string>, heap: seq<nat>, maxMemory: real, pause: int, j: nat)
    requires |heap| == |names| && j <= |names|
    ensures PausesBefore(ReadFolderSteps(folder, names, heap, maxMemory, pause)[..j]) == OverLimit(heap[..j], maxMemory)
    decreases j
  {
    var steps := ReadFolderSteps(folder, names, heap, maxMemory, pause);
    if j > 0 {
      WatchdogCount(folder, names, heap, maxMemory, pause, j - 1);
      assert steps[..j][..j - 1] == steps[..j - 1];
      assert heap[..j][..j - 1] == heap[..j - 1];
      if OverMemory(heap[j - 1], maxMemory) {
        assert Pauses(steps[j - 1].before) == 1 by {
          assert steps[j - 1].before == [Pause(pause)];
        }
      } else {
        assert steps[j - 1].before == [];
      }
    }
  }

  /**
   * The watchdog waits once before each name it handles whose heap sample
   * exceeds `maxMemory` GiB, and at no other time: over all names when the
   * loop completes, over the names up to the one whose read throws otherwise.
   */
  lemma WatchdogPauses(folder: Folder, names: seq<string>, heap: seq<nat>, maxMemory: real, pause: int)
    requires |heap| == |names|
    ensures var run := RunSteps(ReadFolderSteps(folder, names, heap, maxMemory, pause));
            var handled := if run.completed then |names| else |Payloads(run.log)| + 1;
            handled <= |names| && Pauses(run.log) == OverLimit(heap[..handled], maxMemory)
  {
    var steps := ReadFolderSteps(folder, names, heap, maxMemory, pause);
    ReadFolderWellFormed(folder, names, heap, maxMemory, pause);
    RanCount(steps);
    RunPauses(steps);
    WatchdogCount(folder, names, heap, maxMemory, pause, Ran(steps));
  }

  /**
   * The folder-stat quirk: in one run of ReadFolder every file takes the same
   * branch, chosen by the folder's own size. Above 5 MiB each is a stream of
   * chunks of at most 1024 bytes that drain to its bytes; otherwise each is
   * a buffer holding them.
   */
  lemma FolderRouting(folder: Folder, names: seq<string>, heap: seq<nat>, maxMemory: real, pause: int)
    requires |heap| == |names|
    ensures var out := Payloads(RunSteps(ReadFolderSteps(folder, names, heap, maxMemory, pause)).log);
            |out| <= |names| &&
            forall i :: 0 <= i < |out| ==>
              names[i] in folder.files &&
              (folder.size > STREAM_THRESHOLD ==>
                 out[i].Stream? && Flatten(out[i].chunks) == folder.files[names[i]] &&
                 forall j :: 0 <= j < |out[i].chunks| ==> 0 < |out[i].chunks[j]| <= CHUNK_SIZE) &&
              (folder.size <= STREAM_THRESHOLD ==> out[i] == Buffer(folder.files[names[i]]))
  {
    var out := Payloads(RunSteps(ReadFolderSteps(folder, names, heap, maxMemory, pause)).log);
    ReadFolderEmitsEachFile(folder, names, heap, maxMemory, pause);
    forall i | 0 <= i < |out| && folder.size > STREAM_THRESHOLD
      ensures Flatten(out[i].chunks) == folder.files[names[i]]
      ensures forall j :: 0 <= j < |out[i].chunks| ==> 0 < |out[i].chunks[j]| <= CHUNK_SIZE
    {
      assert FolderEvent(folder, names[i]) == Some(out[i]);
      FlattenChunks(folder.files[names[i]], CHUNK_SIZE);
      ChunkSizes(folder.files[names[i]], CHUNK_SIZE);
    }
  }

  // ----- GetFileFromFolder -----

  /**
   * The emission for one incoming name: the file's own size decides; a large
   * file is streamed in chunks, any other is read as UTF-8 text (`utf8` is
   * the decoder). A name that is not a regular file in the folder makes
   * `stat` or the read throw.
   */
  function FileEvent(files: map<string, Bytes>, name: string, utf8: Bytes -> string): Option<Event>
  {
    if name !in files then None
    else if |files[name]| > STREAM_THRESHOLD then Some(Stream(Chunks(files[name], CHUNK_SIZE)))
    else Some(Text(utf8(files[name])))
  }

  function GetFileSteps(files: map<string, Bytes>, names: seq<string>, utf8: Bytes -> string): seq<Step>
  {
    seq(|names|, i requires 0 <= i < |names| => Step([], FileEvent(files, names[i], utf8)))
  }

  /** Emits one file by its own size: streamed in chunks, or decoded as text. */
  method EmitFile(w: Writer, files: map<string, Bytes>, name: string, utf8: Bytes -> string)
    requires name in files
    modifies w
    ensures w.events == old(w.events) + ItemLog(FileEvent(files, name, utf8))
  {
    var data := files[name];
    if |data| > STREAM_THRESHOLD {
      var chunks := ReadFileInChunks(data, CHUNK_SIZE);
      w.Stream(chunks);
    } else {
      w.String(utf8(data));
    }
  }

  /**
   * GetFileFromFolder.transform: for every incoming name, in order, the
   * file under `folderPath` by that name (`files`), streamed or as text;
   * `close()` after the input ends. Returns false when a `stat` or a read
   * throws, which ends the stage without closing the writer.
   */
  method GetFileFromFolder(w: Writer, files: map<string, Bytes>, names: seq<string>, utf8: Bytes -> string)
    returns (completed: bool)
    modifies w
    ensures completed == RunSteps(GetFileSteps(files, names, utf8)).completed
    ensures w.events == old(w.events) + StageLog(RunSteps(GetFileSteps(files, names, utf8)))
  {
    ghost var steps := GetFileSteps(files, names, utf8);
    for i := 0 to |names|
      invariant RunSteps(steps[..i]).completed
      invariant w.events == old(w.events) + RunSteps(steps[..i]).log
    {
      RunSnoc(steps, i);
      var name := names[i];
      if name !in files {
        RunStuck(steps, i + 1);
        return false;
      }
      EmitFile(w, files, name, utf8);
    }
    assert steps[..|names|] == steps;
    w.Close();
    return true;
  }

  /**
   * GetFileFromFolder answers each name with one item, in input order, until
   * a name is not a readable file; it completes exactly when all are, and
   * then closes its writer once, last; otherwise it never closes it.
   */
  lemma GetFileOnePerName(files: map<string, Bytes>, names: seq<string>, utf8: Bytes -> string)
    ensures var run := RunSteps(GetFileSteps(files, names, utf8));
            var out := Payloads(run.log);
            && (run.completed <==> forall i :: 0 <= i < |names| ==> names[i] in files)
            && |out| <= |names|
            && (forall i :: 0 <= i < |out| ==> FileEvent(files, names[i], utf8) == Some(out[i]))
            && (run.completed ==> |out| == |names|)
            && (!run.completed ==> |out| < |names| && names[|out|] !in files)
    ensures var run := RunSteps(GetFileSteps(files, names, utf8));
            (run.completed ==> ClosedOnceAtEnd(StageLog(run))) && (!run.completed ==> Closes(StageLog(run)) == 0)
  {
    var steps := GetFileSteps(files, names, utf8);
    assert WellFormed(steps);
    RunOutcome(steps);
    StageCloses(steps);
    var k := FirstFailure(steps);
    if k < |steps| {
      assert steps[k].item.None?;
    }
    forall i | 0 <= i < k ensures names[i] in files {
      assert steps[i].item.Some?;
    }
  }

  /**
   * GetFileFromFolder routes each file by its own size: above 5 MiB a stream
   * of chunks of at most 1024 bytes that drain to its bytes, otherwise its
   * text.
   */
  lemma GetFileRouting(files: map<string, Bytes>, names: seq<string>, utf8: Bytes -> string)
    ensures var out := Payloads(RunSteps(GetFileSteps(files, names, utf8)).log);
            |out| <= |names| &&
            forall i :: 0 <= i < |out| ==>
              names[i] in files &&
              (|files[names[i]]| > STREAM_THRESHOLD ==>
                 out[i].Stream? && Flatten(out[i].chunks) == files[names[i]] &&
                 forall j :: 0 <= j < |out[i].chunks| ==> 0 < |out[i].chunks[j]| <= CHUNK_SIZE) &&
              (|files[names[i]]| <= STREAM_THRESHOLD ==> out[i] == Text(utf8(files[names[i]])))
  {
    var out := Payloads(RunSteps(GetFileSteps(files, names, utf8)).log);
    GetFileOnePerName(files, names, utf8);
    forall i | 0 <= i < |out| && names[i] in files && |files[names[i]]| > STREAM_THRESHOLD
      ensures Flatten(out[i].chunks) == files[names[i]]
      ensures forall j :: 0 <= j < |out[i].chunks| ==> 0 < |out[i].chunks[j]| <= CHUNK_SIZE
    {
      assert FileEvent(files, names[i], utf8) == Some(out[i]);
      FlattenChunks(files[names[i]], CHUNK_SIZE);
      ChunkSizes(files[names[i]], CHUNK_SIZE);
    }
  }

  /** GetFileFromFolder never waits. */
  lemma GetFileNeverWaits(files: map<string, Bytes>, names: seq<string>, utf8: Bytes -> string)
    ensures Pauses(StageLog(RunSteps(GetFileSteps(files, names, utf8)))) == 0
  {
    var steps := GetFileSteps(files, names, utf8);
    var run := RunSteps(steps);
    RunPauses(steps);
    NoPausesBefore(steps[..Ran(steps)]);
    if run.completed {
      PausesAppend(run.log, [Close]);
    }
  }

  lemma {:induction false} NoPausesBefore(steps: seq<Step>)
    requires forall i :: 0 <= i < |steps| ==> steps[i].before == []
    ensures PausesBefore(steps) == 0
    decreases |steps|
  {
    if steps != [] {
      NoPausesBefore(steps[..|steps| - 1]);
    }
  }

  /** The 5 MiB boundary: a file of exactly 5 MiB is sent whole by every source, one byte more is streamed. */
  lemma SizeBoundary(file: Bytes, bigger: Bytes, name: string, utf8: Bytes -> string)
    requires |file| == 5 * 1024 * 1024 && |bigger| == |file| + 1
    ensures GlobFileEvent(file) == Buffer(file) && GlobFileEvent(bigger).Stream?
    ensures FolderEvent(Folder(5 * 1024 * 1024, map[name := file]), name) == Some(Buffer(file))
    ensures FolderEvent(Folder(5 * 1024 * 1024 + 1, map[name := file]), name).value.Stream?
    ensures FileEvent(map[name := file], name, utf8) == Some(Text(utf8(file)))
    ensures FileEvent(map[name := bigger], name, utf8).value.Stream?
  {
  }
}
