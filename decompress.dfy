/**
 * The decompressing processors of src/FileUtils.ts. UnzipFile writes the
 * data of every entry of each incoming ZIP archive; GunzipFile writes each
 * incoming input decompressed, as one buffer. An input that cannot be decoded is
 * skipped and the stage goes on with the next one; the writer is closed when
 * the input ends. The decoders themselves are parameters.
 */
module Decompress {
  import opened Wrappers
  import opened Events
  import opened Runs

  // ----- UnzipFile -----

  /**
   * What the ZIP reader makes of one input: Unreadable when opening the
   * archive throws; otherwise its entries in directory order, each with the
   * data extracting it yields (directories yield no bytes), or None when
   * extracting it throws.
   */
  datatype ZipArchive = Unreadable | Archive(entries: seq<Option<Bytes>>)

  /** Writing the entries is a loop whose iterations may throw. */
  function EntrySteps(entries: seq<Option<Bytes>>): seq<Step>
  {
    seq(|entries|, i requires 0 <= i < |entries| =>
      Step([], if entries[i].Some? then Some(Buffer(entries[i].value)) else None))
  }

  /**
   * The buffers one input yields: none for an unreadable archive; for a
   * readable one, its entries' data up to the first entry that cannot be
   * extracted, where the `try` block is left.
   */
  function ArchiveEvents(archive: ZipArchive): seq<Event>
  {
    if archive.Unreadable? then [] else RunSteps(EntrySteps(archive.entries)).log
  }

  /** The events of UnzipFile.transform's loop, one input after the other. */
  function UnzipItems(inputs: seq<Bytes>, unzip: Bytes -> ZipArchive): seq<Event>
  {
    FlatMap(inputs, (x: Bytes) => ArchiveEvents(unzip(x)))
  }

  /** The inner loop over an archive's entries, left at the first entry that cannot be extracted. */
  method WriteEntries(w: Writer, entries: seq<Option<Bytes>>)
    modifies w
    ensures w.events == old(w.events) + RunSteps(EntrySteps(entries)).log
  {
    ghost var steps := EntrySteps(entries);
    var j := 0;
    while j < |entries|
      invariant j <= |entries|
      invariant RunSteps(steps[..j]).completed
      invariant w.events == old(w.events) + RunSteps(steps[..j]).log
    {
      RunSnoc(steps, j);
      if entries[j].None? {
        RunStuck(steps, j + 1);
        return;
      }
      w.Buffer(entries[j].value);
      j := j + 1;
    }
    assert steps[..j] == steps;
  }

  /** UnzipFile.transform: every entry of every readable archive, in order, then `close()`. */
  method UnzipFile(w: Writer, inputs: seq<Bytes>, unzip: Bytes -> ZipArchive)
    modifies w
    ensures w.events == old(w.events) + UnzipItems(inputs, unzip) + [Close]
  {
    for i := 0 to |inputs|
      invariant w.events == old(w.events) + UnzipItems(inputs[..i], unzip)
    {
      FlatMapSnoc(inputs, i, (x: Bytes) => ArchiveEvents(unzip(x)));
      var archive := unzip(inputs[i]);
      if archive.Archive? {
        WriteEntries(w, archive.entries);
      }
    }
    assert inputs[..|inputs|] == inputs;
    w.Close();
  }

  /**
   * One archive's output: a readable archive yields one buffer per entry, in
   * order, holding that entry's data, up to the first entry that cannot be
   * extracted; all of them when every entry can be. An unreadable one yields
   * nothing.
   */
  lemma ArchiveOutput(archive: ZipArchive)
    ensures forall i :: 0 <= i < |ArchiveEvents(archive)| ==> ArchiveEvents(archive)[i].Buffer?
    ensures archive.Unreadable? ==> ArchiveEvents(archive) == []
    ensures archive.Archive? ==>
              var out := ArchiveEvents(archive);
              var es := archive.entries;
              && |out| <= |es|
              && (forall i :: 0 <= i < |out| ==> es[i] == Some(out[i].bytes))
              && (|out| < |es| ==> es[|out|] == None)
              && ((forall i :: 0 <= i < |es| ==> es[i].Some?) ==> |out| == |es|)
  {
    if archive.Archive? {
      var es := archive.entries;
      var steps := EntrySteps(es);
      var out := ArchiveEvents(archive);
      assert WellFormed(steps);
      RunOutcome(steps);
      AllPayloadsBuffers(steps);
      AllPayloads(out);
      var k := FirstFailure(steps);
      forall i | 0 <= i < k ensures es[i] == Some(out[i].bytes) {
        assert steps[i].item == Some(out[i]);
      }
      if k < |es| {
        assert steps[k].item.None?;
      }
    }
  }

  /** Every event a run of entry steps writes is a buffer. */
  lemma {:induction false} AllPayloadsBuffers(steps: seq<Step>)
    requires forall i :: 0 <= i < |steps| ==> steps[i].before == [] && (steps[i].item.Some? ==> steps[i].item.value.Buffer?)
    ensures forall i :: 0 <= i < |RunSteps(steps).log| ==> RunSteps(steps).log[i].Buffer?
    decreases |steps|
  {
    if steps != [] {
      var n := |steps| - 1;
      assert forall i :: 0 <= i < n ==> steps[..n][i] == steps[i];
      AllPayloadsBuffers(steps[..n]);
    }
  }

  /**
   * Per-input error isolation: each input contributes exactly its own
   * archive's buffers, in place; one that cannot be opened contributes
   * nothing and does not disturb the inputs around it.
   */
  lemma UnzipIsolation(a: seq<Bytes>, x: Bytes, b: seq<Bytes>, unzip: Bytes -> ZipArchive)
    ensures UnzipItems(a + [x] + b, unzip) == UnzipItems(a, unzip) + ArchiveEvents(unzip(x)) + UnzipItems(b, unzip)
    ensures unzip(x).Unreadable? ==> UnzipItems(a + [x] + b, unzip) == UnzipItems(a, unzip) + UnzipItems(b, unzip)
  {
    FlatMapIsolation(a, x, b, (y: Bytes) => ArchiveEvents(unzip(y)));
  }

  /** UnzipFile writes only buffers and closes its writer once, last. */
  lemma {:induction false} UnzipStage(inputs: seq<Bytes>, unzip: Bytes -> ZipArchive)
    ensures forall i :: 0 <= i < |UnzipItems(inputs, unzip)| ==> UnzipItems(inputs, unzip)[i].Buffer?
    ensures ClosedOnceAtEnd(UnzipItems(inputs, unzip) + [Close])
    decreases |inputs|
  {
    if inputs != [] {
      var n := |inputs| - 1;
      UnzipStage(inputs[..n], unzip);
      ArchiveOutput(unzip(inputs[n]));
      assert UnzipItems(inputs, unzip) == UnzipItems(inputs[..n], unzip) + ArchiveEvents(unzip(inputs[n]));
    }
    PayloadStage(UnzipItems(inputs, unzip));
  }

  // ----- GunzipFile -----

  /** What one input yields: its decompressed bytes as one buffer, or nothing when `gunzip` rejects it. */
  function GunzipEvents(decoded: Option<Bytes>): seq<Event>
  {
    if decoded.Some? then [Buffer(decoded.value)] else []
  }

  /** The events of GunzipFile.transform's loop, one input after the other. */
  function GunzipItems(inputs: seq<Bytes>, gunzip: Bytes -> Option<Bytes>): seq<Event>
  {
    FlatMap(inputs, (x: Bytes) => GunzipEvents(gunzip(x)))
  }

  /** GunzipFile.transform: every input that decompresses, as one buffer, in order, then `close()`. */
  method GunzipFile(w: Writer, inputs: seq<Bytes>, gunzip: Bytes -> Option<Bytes>)
    modifies w
    ensures w.events == old(w.events) + GunzipItems(inputs, gunzip) + [Close]
  {
    for i := 0 to |inputs|
      invariant w.events == old(w.events) + GunzipItems(inputs[..i], gunzip)
    {
      FlatMapSnoc(inputs, i, (x: Bytes) => GunzipEvents(gunzip(x)));
      var decoded := gunzip(inputs[i]);
      if decoded.Some? {
        w.Buffer(decoded.value);
      }
    }
    assert inputs[..|inputs|] == inputs;
    w.Close();
  }

  /** The inputs `gunzip` accepts, decompressed, in order. */
  function Decoded(inputs: seq<Bytes>, gunzip: Bytes -> Option<Bytes>): seq<Bytes>
    decreases |inputs|
  {
    if inputs == [] then []
    else
      var rest := Decoded(inputs[..|inputs| - 1], gunzip);
      match gunzip(inputs[|inputs| - 1])
      case Some(d) => rest + [d]
      case None => rest
  }

  /**
   * GunzipFile writes one buffer per input that decompresses, holding its
   * decompressed bytes, in input order, and nothing for an input that does
   * not; when all do, exactly one per input.
   */
  lemma {:induction false} GunzipOutput(inputs: seq<Bytes>, gunzip: Bytes -> Option<Bytes>)
    ensures |GunzipItems(inputs, gunzip)| == |Decoded(inputs, gunzip)| <= |inputs|
    ensures forall i :: 0 <= i < |GunzipItems(inputs, gunzip)| ==>
              GunzipItems(inputs, gunzip)[i] == Buffer(Decoded(inputs, gunzip)[i])
    ensures (forall i :: 0 <= i < |inputs| ==> gunzip(inputs[i]).Some?) ==>
              |Decoded(inputs, gunzip)| == |inputs| &&
              forall i :: 0 <= i < |inputs| ==> Some(Decoded(inputs, gunzip)[i]) == gunzip(inputs[i])
    decreases |inputs|
  {
    if inputs != [] {
      var n := |inputs| - 1;
      GunzipOutput(inputs[..n], gunzip);
      assert forall i :: 0 <= i < n ==> inputs[..n][i] == inputs[i];
      assert GunzipItems(inputs, gunzip) == GunzipItems(inputs[..n], gunzip) + GunzipEvents(gunzip(inputs[n]));
    }
  }

  /** Per-input error isolation: an input `gunzip` rejects is skipped without disturbing the inputs around it. */
  lemma GunzipIsolation(a: seq<Bytes>, x: Bytes, b: seq<Bytes>, gunzip: Bytes -> Option<Bytes>)
    ensures gunzip(x).None? ==> GunzipItems(a + [x] + b, gunzip) == GunzipItems(a, gunzip) + GunzipItems(b, gunzip)
    ensures gunzip(x).Some? ==> GunzipItems(a + [x] + b, gunzip) == GunzipItems(a, gunzip) + [Buffer(gunzip(x).value)] + GunzipItems(b, gunzip)
  {
    FlatMapIsolation(a, x, b, (y: Bytes) => GunzipEvents(gunzip(y)));
  }

  /** GunzipFile writes only buffers and closes its writer once, last. */
  lemma GunzipStage(inputs: seq<Bytes>, gunzip: Bytes -> Option<Bytes>)
    ensures Payloads(GunzipItems(inputs, gunzip) + [Close]) == GunzipItems(inputs, gunzip)
    ensures ClosedOnceAtEnd(GunzipItems(inputs, gunzip) + [Close])
  {
    GunzipOutput(inputs, gunzip);
    PayloadStage(GunzipItems(inputs, gunzip));
  }
}
