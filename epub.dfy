/** `create_epub` (mobiconvert/mobitool.c): the reconstructed parts packed
    into an EPUB archive with the miniz ZIP writer. The writer is modelled as
    an append-only log of entries (name, payload, compression level) whose
    operations can fail; which operation fails, if any, is a parameter. */
module Epub {
  import opened Common
  import opened Names
  import opened Parts

  /** `MZ_NO_COMPRESSION` and `MZ_DEFAULT_COMPRESSION`. */
  datatype Level = NoCompression | DefaultCompression

  /** One `mz_zip_writer_add_mem` call that the writer accepted. */
  datatype ZipEntry = ZipEntry(name: string, payload: seq<u8>, level: Level)

  /** The heap ZIP writer. Every operation (init, add, finalize, end) is one
      call; the call numbered `failsAt`, counting from 0, fails. */
  class ZipWriter {
    const failsAt: Option<nat>
    var calls: nat
    var entries: seq<ZipEntry>
    var active: bool

    /** `memset(&zip, 0, sizeof(mz_zip_archive))`. */
    constructor (failsAt: Option<nat>)
      ensures this.failsAt == failsAt && calls == 0 && entries == [] && !active
    {
      this.failsAt := failsAt;
      calls, entries, active := 0, [], false;
    }

    predicate NextFails()
      reads this
    {
      failsAt == Some(calls)
    }

    /** `mz_zip_writer_init_heap`. */
    method InitHeap() returns (ok: bool)
      modifies this
      ensures ok == !old(NextFails()) && active == ok
      ensures calls == old(calls) + 1 && entries == old(entries)
    {
      ok := !NextFails();
      calls := calls + 1;
      active := ok;
    }

    /** `mz_zip_writer_add_mem`: the entry is appended when the call succeeds. */
    method AddMem(name: string, payload: seq<u8>, level: Level) returns (ok: bool)
      requires active
      modifies this
      ensures ok == !old(NextFails()) && active
      ensures calls == old(calls) + 1
      ensures entries == old(entries) + (if ok then [ZipEntry(name, payload, level)] else [])
    {
      ok := !NextFails();
      calls := calls + 1;
      if ok {
        entries := entries + [ZipEntry(name, payload, level)];
      }
    }

    /** `mz_zip_writer_finalize_heap_archive`: the archive holds the entries. */
    method FinalizeHeap() returns (ok: bool, archive: seq<ZipEntry>)
      requires active
      modifies this
      ensures ok == !old(NextFails()) && active && entries == old(entries)
      ensures calls == old(calls) + 1
      ensures archive == (if ok then entries else [])
    {
      ok := !NextFails();
      calls := calls + 1;
      archive := if ok then entries else [];
    }

    /** `mz_zip_writer_end`. */
    method End() returns (ok: bool)
      modifies this
      ensures ok == !old(NextFails()) && !active && entries == old(entries)
      ensures calls == old(calls) + 1
    {
      ok := !NextFails();
      calls := calls + 1;
      active := false;
    }
  }

  /** The first entry: the media type, stored uncompressed. */
  function MimetypeEntry(): ZipEntry
  {
    ZipEntry("mimetype", Latin1(EPUB_MIMETYPE), NoCompression)
  }

  /** The second entry: the container document. */
  function ContainerEntry(): ZipEntry
  {
    ZipEntry("META-INF/container.xml", Latin1(EPUB_CONTAINER), DefaultCompression)
  }

  /** The entry of a markup or flow part. */
  function PartEntry(prefix: string, p: Part, meta: nat -> FileMeta): ZipEntry
  {
    ZipEntry(PartName(prefix, p, meta), p.data, DefaultCompression)
  }

  /** The entries of a list of markup or flow parts, one per part, in order. */
  function PartEntries(ps: seq<Part>, prefix: string, meta: nat -> FileMeta): (r: seq<ZipEntry>)
    ensures |r| == |ps|
    decreases |ps|
  {
    if ps == [] then [] else PartEntries(ps[..|ps| - 1], prefix, meta) + [PartEntry(prefix, ps[|ps| - 1], meta)]
  }

  /** Entry j is that of part j. */
  lemma {:induction false} PartEntriesAt(ps: seq<Part>, prefix: string, meta: nat -> FileMeta)
    ensures forall j :: 0 <= j < |ps| ==> PartEntries(ps, prefix, meta)[j] == PartEntry(prefix, ps[j], meta)
    decreases |ps|
  {
    if ps != [] {
      PartEntriesAt(ps[..|ps| - 1], prefix, meta);
    }
  }

  /** The entry name of a written resource: every OPF document is
      `OEBPS/content.opf`, the rest are numbered. */
  function ResourceName(p: Part, meta: nat -> FileMeta): string
  {
    if meta(p.partType).fileType == Opf then "OEBPS/content.opf" else PartName("OEBPS/resource", p, meta)
  }

  function ResourceEntry(p: Part, meta: nat -> FileMeta): ZipEntry
  {
    ZipEntry(ResourceName(p, meta), p.data, DefaultCompression)
  }

  /** The entries of the resources, empty ones skipped. */
  function ResourceEntries(ps: seq<Part>, meta: nat -> FileMeta): (r: seq<ZipEntry>)
    ensures |r| == |WrittenParts(ps)|
    decreases |ps|
  {
    if ps == [] then []
    else
      var rest := ResourceEntries(ps[..|ps| - 1], meta);
      var last := ps[|ps| - 1];
      if Written(last) then rest + [ResourceEntry(last, meta)] else rest
  }

  /** Entry j of the resources' entries is that of the j-th written resource. */
  lemma {:induction false} ResourceEntriesAt(ps: seq<Part>, meta: nat -> FileMeta)
    ensures forall j :: 0 <= j < |WrittenParts(ps)| ==>
      ResourceEntries(ps, meta)[j] == ResourceEntry(WrittenParts(ps)[j], meta)
    decreases |ps|
  {
    if ps != [] {
      ResourceEntriesAt(ps[..|ps| - 1], meta);
    }
  }

  /** Every entry of the archive, in the order `create_epub` adds them. */
  function EpubPlan(r: Rawml, meta: nat -> FileMeta): (plan: seq<ZipEntry>)
    ensures |plan| == 2 + |r.markup| + |FlowTail(r.flow)| + |WrittenParts(r.resources)|
  {
    [MimetypeEntry(), ContainerEntry()] + PartEntries(r.markup, "OEBPS/part", meta)
    + PartEntries(FlowTail(r.flow), "OEBPS/flow", meta) + ResourceEntries(r.resources, meta)
  }

  /** What `create_epub` returns and what it leaves in `*out_buffer`
      (None: not assigned). */
  datatype EpubResult = EpubResult(ret: ToolRet, out: Option<seq<ZipEntry>>)

  /** `create_epub` when the writer's call `failsAt` fails: init is call 0,
      the adds follow, then finalize and end. The archive is handed out
      before the writer is ended, so a failing end still leaves it. */
  function CreateEpubSpec(rawml: Option<Rawml>, meta: nat -> FileMeta, failsAt: Option<nat>): (r: EpubResult)
    ensures rawml.None? ==> r == EpubResult(ToolError, None)
    ensures r.ret == ToolSuccess <==>
      rawml.Some? && (failsAt.None? || failsAt.value > |EpubPlan(rawml.value, meta)| + 2)
    ensures r.out.Some? <==>
      rawml.Some? && (failsAt.None? || failsAt.value >= |EpubPlan(rawml.value, meta)| + 2)
    ensures r.out.Some? ==> r.out.value == EpubPlan(rawml.value, meta)
  {
    if rawml.None? then EpubResult(ToolError, None)
    else
      var n := |EpubPlan(rawml.value, meta)|;
      if failsAt.Some? && failsAt.value < n + 2 then EpubResult(ToolError, None)
      else if failsAt == Some(n + 2) then EpubResult(ToolError, Some(EpubPlan(rawml.value, meta)))
      else EpubResult(ToolSuccess, Some(EpubPlan(rawml.value, meta)))
  }

  /** Only a NULL rawml is an error: a reconstruction with no parts gives
      SUCCESS and an archive holding just the two fixed entries. */
  lemma NoPartsArchive(meta: nat -> FileMeta)
    ensures CreateEpubSpec(Some(Rawml([], [], [])), meta, None) ==
      EpubResult(ToolSuccess, Some([MimetypeEntry(), ContainerEntry()]))
  {
    assert EpubPlan(Rawml([], [], []), meta) == [MimetypeEntry(), ContainerEntry()];
  }

  /** The number of the entry among `count` adds starting at call `first`
      whose call fails, if any. */
  function FailingAdd(failsAt: Option<nat>, first: nat, count: nat): (r: Option<nat>)
    ensures r.Some? ==> r.value < count && failsAt == Some(first + r.value)
    ensures r.None? ==> failsAt.None? || failsAt.value < first || failsAt.value >= first + count
  {
    if failsAt.Some? && first <= failsAt.value < first + count then Some(failsAt.value - first) else None
  }

  /** A run of adds of the entries `e`, begun at call `c0` on the log
      `log0`, left the log `log` after `calls` calls: everything before the
      failing add is appended, and `ok` tells whether none failed. */
  predicate Ran(failsAt: Option<nat>, c0: nat, log0: seq<ZipEntry>, e: seq<ZipEntry>, ok: bool, log: seq<ZipEntry>, calls: nat)
  {
    var f := FailingAdd(failsAt, c0, |e|);
    ok == f.None? &&
    log == log0 + (if ok then e else e[..f.value]) &&
    calls == c0 + (if ok then |e| else f.value + 1)
  }

  /** Two runs, the second begun where the first ended without failure,
      are one run of both lists. */
  lemma RanAppend(failsAt: Option<nat>, c0: nat, log0: seq<ZipEntry>, e1: seq<ZipEntry>, log1: seq<ZipEntry>, calls1: nat,
                  e2: seq<ZipEntry>, ok: bool, log2: seq<ZipEntry>, calls2: nat)
    requires Ran(failsAt, c0, log0, e1, true, log1, calls1)
    requires Ran(failsAt, calls1, log1, e2, ok, log2, calls2)
    ensures Ran(failsAt, c0, log0, e1 + e2, ok, log2, calls2)
  {
    var f := FailingAdd(failsAt, calls1, |e2|);
    if ok {
      assert FailingAdd(failsAt, c0, |e1 + e2|).None?;
      assert log2 == log0 + (e1 + e2);
    } else {
      assert FailingAdd(failsAt, c0, |e1 + e2|) == Some(|e1| + f.value);
      assert (e1 + e2)[..|e1| + f.value] == e1 + e2[..f.value];
      assert log2 == log0 + (e1 + e2)[..|e1| + f.value];
    }
  }

  predicate AddedRun(zip: ZipWriter, c0: nat, log0: seq<ZipEntry>, e: seq<ZipEntry>, ok: bool)
    reads zip
  {
    Ran(zip.failsAt, c0, log0, e, ok, zip.entries, zip.calls)
  }

  /** The loop over a markup or flow list: each part's entry is added. */
  method AddParts(zip: ZipWriter, ps: seq<Part>, prefix: string, meta: nat -> FileMeta) returns (ok: bool)
    requires zip.active
    modifies zip
    ensures zip.active && AddedRun(zip, old(zip.calls), old(zip.entries), PartEntries(ps, prefix, meta), ok)
  {
    ghost var e := PartEntries(ps, prefix, meta);
    ghost var c0, log0 := zip.calls, zip.entries;
    PartEntriesAt(ps, prefix, meta);
    var i := 0;
    ok := true;
    while i < |ps| && ok
      invariant 0 <= i <= |ps| && zip.active
      invariant ok ==> Ran(zip.failsAt, c0, log0, e[..i], true, zip.entries, zip.calls)
      invariant !ok ==> AddedRun(zip, c0, log0, e, false)
      decreases |ps| - i
    {
      var meta_i := meta(ps[i].partType);
      var name := Truncated(NumberedName(prefix, ps[i].uid, meta_i.extension), FILENAME_MAX);
      ghost var calls1, log1 := zip.calls, zip.entries;
      ok := zip.AddMem(name, ps[i].data, DefaultCompression);
      assert e[..i + 1] == e[..i] + [e[i]];
      RanAppend(zip.failsAt, c0, log0, e[..i], log1, calls1, [e[i]], ok, zip.entries, zip.calls);
      if !ok {
        RanPrefix(zip.failsAt, c0, log0, e, i + 1, zip.entries, zip.calls);
      }
      i := i + 1;
    }
    if ok {
      assert e[..i] == e;
    }
  }

  /** A run of a prefix of `e` that failed is a failed run of `e`. */
  lemma RanPrefix(failsAt: Option<nat>, c0: nat, log0: seq<ZipEntry>, e: seq<ZipEntry>, k: nat, log: seq<ZipEntry>, calls: nat)
    requires k <= |e| && Ran(failsAt, c0, log0, e[..k], false, log, calls)
    ensures Ran(failsAt, c0, log0, e, false, log, calls)
  {
    var f := FailingAdd(failsAt, c0, k);
    assert e[..k][..f.value] == e[..f.value];
  }

  /** The entries of a prefix of the resources begin the entries of them all. */
  lemma {:induction false} ResourcesPrefix(ps: seq<Part>, meta: nat -> FileMeta, k: nat)
    requires k <= |ps|
    ensures ResourceEntries(ps[..k], meta) <= ResourceEntries(ps, meta)
    decreases |ps|
  {
    if k < |ps| {
      var front := ps[..|ps| - 1];
      ResourcesPrefix(front, meta, k);
      assert front[..k] == ps[..k];
    } else {
      assert ps[..k] == ps;
    }
  }

  /** One turn of the resource loop: a nonempty resource is added. */
  method AddResource(zip: ZipWriter, p: Part, meta: nat -> FileMeta) returns (ok: bool)
    requires zip.active
    modifies zip
    ensures zip.active
    ensures Ran(zip.failsAt, old(zip.calls), old(zip.entries), if Written(p) then [ResourceEntry(p, meta)] else [], ok, zip.entries, zip.calls)
  {
    ok := true;
    if |p.data| > 0 {
      var name := if meta(p.partType).fileType == Opf then "OEBPS/content.opf"
        else Truncated(NumberedName("OEBPS/resource", p.uid, meta(p.partType).extension), FILENAME_MAX);
      ok := zip.AddMem(name, p.data, DefaultCompression);
    }
  }

  /** The loop over the resources: each nonempty one is added. */
  method AddResources(zip: ZipWriter, ps: seq<Part>, meta: nat -> FileMeta) returns (ok: bool)
    requires zip.active
    modifies zip
    ensures zip.active && AddedRun(zip, old(zip.calls), old(zip.entries), ResourceEntries(ps, meta), ok)
  {
    ghost var c0, log0 := zip.calls, zip.entries;
    var i := 0;
    ok := true;
    while i < |ps| && ok
      invariant 0 <= i <= |ps| && zip.active
      invariant Ran(zip.failsAt, c0, log0, ResourceEntries(ps[..i], meta), ok, zip.entries, zip.calls)
      decreases |ps| - i
    {
      ghost var e := ResourceEntries(ps[..i], meta);
      ghost var calls1, log1 := zip.calls, zip.entries;
      assert ps[..i + 1][..i] == ps[..i];
      ghost var add := if Written(ps[i]) then [ResourceEntry(ps[i], meta)] else [];
      ok := AddResource(zip, ps[i], meta);
      RanAppend(zip.failsAt, c0, log0, e, log1, calls1, add, ok, zip.entries, zip.calls);
      assert ResourceEntries(ps[..i + 1], meta) == e + add;
      i := i + 1;
    }
    ResourcesRan(zip.failsAt, c0, log0, ps, meta, i, ok, zip.entries, zip.calls);
  }

  /** A run over the first `i` resources that stopped, at the end or at a
      failure, is the run over all of them. */
  lemma ResourcesRan(failsAt: Option<nat>, c0: nat, log0: seq<ZipEntry>, ps: seq<Part>, meta: nat -> FileMeta,
                     i: nat, ok: bool, log: seq<ZipEntry>, calls: nat)
    requires i <= |ps| && (i == |ps| || !ok)
    requires Ran(failsAt, c0, log0, ResourceEntries(ps[..i], meta), ok, log, calls)
    ensures Ran(failsAt, c0, log0, ResourceEntries(ps, meta), ok, log, calls)
  {
    ResourcesPrefix(ps, meta, i);
    if ok {
      assert ps[..i] == ps;
    } else {
      RanPrefixOf(failsAt, c0, log0, ResourceEntries(ps[..i], meta), ResourceEntries(ps, meta), log, calls);
    }
  }

  /** A failed run of a prefix of `e` is a failed run of `e`. */
  lemma RanPrefixOf(failsAt: Option<nat>, c0: nat, log0: seq<ZipEntry>, p: seq<ZipEntry>, e: seq<ZipEntry>, log: seq<ZipEntry>, calls: nat)
    requires p <= e && Ran(failsAt, c0, log0, p, false, log, calls)
    ensures Ran(failsAt, c0, log0, e, false, log, calls)
  {
    assert e[..|p|] == p;
    RanPrefix(failsAt, c0, log0, e, |p|, log, calls);
  }

  /** The two fixed entries. */
  method AddHead(zip: ZipWriter) returns (ok: bool)
    requires zip.active
    modifies zip
    ensures zip.active && AddedRun(zip, old(zip.calls), old(zip.entries), [MimetypeEntry(), ContainerEntry()], ok)
  {
    ghost var c0, log0 := zip.calls, zip.entries;
    ok := zip.AddMem("mimetype", Latin1(EPUB_MIMETYPE), NoCompression);
    if ok {
      ok := zip.AddMem("META-INF/container.xml", Latin1(EPUB_CONTAINER), DefaultCompression);
      if !ok {
        assert [MimetypeEntry(), ContainerEntry()][..1] == [MimetypeEntry()];
      }
    }
  }

  /** Every add of `create_epub`, stopping at the first that fails. */
  method AddAll(zip: ZipWriter, r: Rawml, meta: nat -> FileMeta) returns (ok: bool)
    requires zip.active
    modifies zip
    ensures zip.active && AddedRun(zip, old(zip.calls), old(zip.entries), EpubPlan(r, meta), ok)
  {
    ghost var c0, log0 := zip.calls, zip.entries;
    ghost var e1 := [MimetypeEntry(), ContainerEntry()];
    ghost var e2 := PartEntries(r.markup, "OEBPS/part", meta);
    ghost var e3 := PartEntries(FlowTail(r.flow), "OEBPS/flow", meta);
    ghost var e4 := ResourceEntries(r.resources, meta);
    assert EpubPlan(r, meta) == e1 + e2 + e3 + e4;
    ok := AddHead(zip);
    if !ok {
      RanPrefixOf(zip.failsAt, c0, log0, e1, e1 + e2 + e3 + e4, zip.entries, zip.calls);
      return;
    }
    ghost var calls1, log1 := zip.calls, zip.entries;
    ok := AddParts(zip, r.markup, "OEBPS/part", meta);
    RanAppend(zip.failsAt, c0, log0, e1, log1, calls1, e2, ok, zip.entries, zip.calls);
    if !ok {
      RanPrefixOf(zip.failsAt, c0, log0, e1 + e2, e1 + e2 + e3 + e4, zip.entries, zip.calls);
      return;
    }
    calls1, log1 := zip.calls, zip.entries;
    ok := AddParts(zip, FlowTail(r.flow), "OEBPS/flow", meta);
    RanAppend(zip.failsAt, c0, log0, e1 + e2, log1, calls1, e3, ok, zip.entries, zip.calls);
    if !ok {
      RanPrefixOf(zip.failsAt, c0, log0, e1 + e2 + e3, e1 + e2 + e3 + e4, zip.entries, zip.calls);
      return;
    }
    calls1, log1 := zip.calls, zip.entries;
    ok := AddResources(zip, r.resources, meta);
    RanAppend(zip.failsAt, c0, log0, e1 + e2 + e3, log1, calls1, e4, ok, zip.entries, zip.calls);
  }

  /** `create_epub`, with the writer's failing call as a parameter. */
  method CreateEpub(rawml: Option<Rawml>, meta: nat -> FileMeta, failsAt: Option<nat>) returns (ret: ToolRet, out: Option<seq<ZipEntry>>)
    ensures EpubResult(ret, out) == CreateEpubSpec(rawml, meta, failsAt)
  {
    out := None;
    if rawml.None? {
      return ToolError, out;
    }
    var zip := new ZipWriter(failsAt);
    var ok := zip.InitHeap();
    if !ok {
      return ToolError, out;
    }
    ok := AddAll(zip, rawml.value, meta);
    ret, out := Finish(zip, ok, EpubPlan(rawml.value, meta));
  }

  /** The end of `create_epub`, after the adds of `plan` that began at call 1. */
  method Finish(zip: ZipWriter, added: bool, ghost plan: seq<ZipEntry>) returns (ret: ToolRet, out: Option<seq<ZipEntry>>)
    requires zip.active && AddedRun(zip, 1, [], plan, added) && zip.failsAt != Some(0)
    modifies zip
    ensures var k := zip.failsAt;
      EpubResult(ret, out) ==
      if k.Some? && k.value < |plan| + 2 then EpubResult(ToolError, None)
      else if k == Some(|plan| + 2) then EpubResult(ToolError, Some(plan))
      else EpubResult(ToolSuccess, Some(plan))
  {
    out := None;
    if !added {
      var ignored := zip.End();
      return ToolError, out;
    }
    assert zip.entries == plan && zip.calls == |plan| + 1;
    var ok, archive := zip.FinalizeHeap();
    if !ok {
      var ignored := zip.End();
      return ToolError, out;
    }
    out := Some(archive);
    ok := zip.End();
    if !ok {
      assert zip.failsAt == Some(|plan| + 2);
      return ToolError, out;
    }
    return ToolSuccess, out;
  }

  /** The archive begins with the uncompressed media type and the container
      document. */
  lemma EpubPlanHead(r: Rawml, meta: nat -> FileMeta)
    ensures EpubPlan(r, meta)[0] == MimetypeEntry() && EpubPlan(r, meta)[1] == ContainerEntry()
    ensures MimetypeEntry().level == NoCompression
  {
  }

  /** Markup part j is entry 2 + j, named `OEBPS/part%05zu.ext`. */
  lemma MarkupEntryAt(r: Rawml, meta: nat -> FileMeta, j: nat)
    requires j < |r.markup|
    ensures EpubPlan(r, meta)[2 + j] == PartEntry("OEBPS/part", r.markup[j], meta)
  {
    var e2 := PartEntries(r.markup, "OEBPS/part", meta);
    PartEntriesAt(r.markup, "OEBPS/part", meta);
    assert EpubPlan(r, meta)[2 + j] == e2[j];
  }

  /** Flow part j + 1 (the first one is skipped) follows the markup,
      named `OEBPS/flow%05zu.ext`. */
  lemma FlowEntryAt(r: Rawml, meta: nat -> FileMeta, j: nat)
    requires j + 1 < |r.flow|
    ensures EpubPlan(r, meta)[2 + |r.markup| + j] == PartEntry("OEBPS/flow", r.flow[j + 1], meta)
  {
    var e2 := PartEntries(r.markup, "OEBPS/part", meta);
    var e3 := PartEntries(FlowTail(r.flow), "OEBPS/flow", meta);
    PartEntriesAt(FlowTail(r.flow), "OEBPS/flow", meta);
    assert EpubPlan(r, meta)[2 + |e2| + j] == e3[j];
  }

  /** The j-th nonempty resource follows the flow parts. */
  lemma ResourceEntryAt(r: Rawml, meta: nat -> FileMeta, j: nat)
    requires j < |WrittenParts(r.resources)|
    ensures EpubPlan(r, meta)[2 + |r.markup| + |FlowTail(r.flow)| + j] == ResourceEntry(WrittenParts(r.resources)[j], meta)
  {
    var e2 := PartEntries(r.markup, "OEBPS/part", meta);
    var e3 := PartEntries(FlowTail(r.flow), "OEBPS/flow", meta);
    var e4 := ResourceEntries(r.resources, meta);
    ResourceEntriesAt(r.resources, meta);
    assert EpubPlan(r, meta)[2 + |e2| + |e3| + j] == e4[j];
  }

  /** The media type entry's payload is exactly the 20 bytes of
      `application/epub+zip`, without the terminator. */
  lemma MimetypePayload()
    ensures MimetypeEntry().payload ==
      [0x61, 0x70, 0x70, 0x6C, 0x69, 0x63, 0x61, 0x74, 0x69, 0x6F, 0x6E, 0x2F,
       0x65, 0x70, 0x75, 0x62, 0x2B, 0x7A, 0x69, 0x70]
  {
  }

  /** A name truncated to FILENAME_MAX keeps any prefix shorter than the
      buffer. */
  lemma TruncatedKeepsPrefix(p: string, s: string)
    requires |p| < FILENAME_MAX && p <= s
    ensures p <= Truncated(s, FILENAME_MAX)
  {
  }

  /** An entry the tool names below `OEBPS/`, at default compression. */
  predicate InOebps(e: ZipEntry)
  {
    |e.name| >= 6 && e.name[..6] == "OEBPS/" && e.level == DefaultCompression
  }

  lemma PartEntriesInOebps(ps: seq<Part>, prefix: string, meta: nat -> FileMeta)
    requires |prefix| < FILENAME_MAX && "OEBPS/" <= prefix
    ensures forall j :: 0 <= j < |ps| ==> InOebps(PartEntries(ps, prefix, meta)[j])
  {
    PartEntriesAt(ps, prefix, meta);
    forall j | 0 <= j < |ps|
      ensures InOebps(PartEntries(ps, prefix, meta)[j])
    {
      var p := ps[j];
      TruncatedKeepsPrefix("OEBPS/", NumberedName(prefix, p.uid, meta(p.partType).extension));
    }
  }

  lemma ResourceEntriesInOebps(ps: seq<Part>, meta: nat -> FileMeta)
    ensures forall j :: 0 <= j < |ResourceEntries(ps, meta)| ==> InOebps(ResourceEntries(ps, meta)[j])
  {
    ResourceEntriesAt(ps, meta);
    forall j | 0 <= j < |ResourceEntries(ps, meta)|
      ensures InOebps(ResourceEntries(ps, meta)[j])
    {
      var p := WrittenParts(ps)[j];
      TruncatedKeepsPrefix("OEBPS/", NumberedName("OEBPS/resource", p.uid, meta(p.partType).extension));
    }
  }

  /** Every entry after the first is compressed, and none of them is named
      `mimetype`: the media type entry is first and only once. */
  lemma MimetypeOnlyFirst(r: Rawml, meta: nat -> FileMeta)
    ensures var plan := EpubPlan(r, meta);
      forall j :: 1 <= j < |plan| ==> plan[j].name != "mimetype" && plan[j].level == DefaultCompression
  {
    var e2 := PartEntries(r.markup, "OEBPS/part", meta);
    var e3 := PartEntries(FlowTail(r.flow), "OEBPS/flow", meta);
    var e4 := ResourceEntries(r.resources, meta);
    PartEntriesInOebps(r.markup, "OEBPS/part", meta);
    PartEntriesInOebps(FlowTail(r.flow), "OEBPS/flow", meta);
    ResourceEntriesInOebps(r.resources, meta);
    ConcatInOebps(e2, e3);
    ConcatInOebps(e2 + e3, e4);
    var plan := EpubPlan(r, meta);
    assert plan == [MimetypeEntry(), ContainerEntry()] + (e2 + e3 + e4);
    forall j | 2 <= j < |plan|
      ensures plan[j].name != "mimetype" && plan[j].level == DefaultCompression
    {
      assert InOebps((e2 + e3 + e4)[j - 2]);
      assert plan[j].name[0] == 'O';
    }
  }

  lemma ConcatInOebps(a: seq<ZipEntry>, b: seq<ZipEntry>)
    requires forall j :: 0 <= j < |a| ==> InOebps(a[j])
    requires forall j :: 0 <= j < |b| ==> InOebps(b[j])
    ensures forall j :: 0 <= j < |a + b| ==> InOebps((a + b)[j])
  {
  }

  /** Two parts of one list with different numbers get different entry
      names, as long as the names fit the name buffer. */
  lemma PartNamesDistinct(ps: seq<Part>, prefix: string, meta: nat -> FileMeta, i: nat, j: nat)
    requires i < |ps| && j < |ps| && ps[i].uid != ps[j].uid
    requires |NumberedName(prefix, ps[i].uid, meta(ps[i].partType).extension)| < FILENAME_MAX
    requires |NumberedName(prefix, ps[j].uid, meta(ps[j].partType).extension)| < FILENAME_MAX
    ensures PartEntries(ps, prefix, meta)[i].name != PartEntries(ps, prefix, meta)[j].name
  {
    var a, b := ps[i], ps[j];
    PartEntriesAt(ps, prefix, meta);
    if PartName(prefix, a, meta) == PartName(prefix, b, meta) {
      NumberedNameInjective(prefix, a.uid, meta(a.partType).extension, b.uid, meta(b.partType).extension);
    }
  }

  /** With a writer that never fails, the archive is produced and returned. */
  lemma EpubWithoutFailure(r: Rawml, meta: nat -> FileMeta)
    ensures CreateEpubSpec(Some(r), meta, None) == EpubResult(ToolSuccess, Some(EpubPlan(r, meta)))
  {
  }

  /** A failing add or finalize leaves no archive and reports an error; only
      a failing end of the writer leaves the archive behind. */
  lemma EpubFailureLeavesNothing(r: Rawml, meta: nat -> FileMeta, k: nat)
    requires k <= |EpubPlan(r, meta)| + 1
    ensures CreateEpubSpec(Some(r), meta, Some(k)) == EpubResult(ToolError, None)
  {
  }
}
