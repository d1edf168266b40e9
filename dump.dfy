/** mobitool's dump functions (mobiconvert/mobitool.c): `dump_rawml_parts`
    writes the reconstructed parts into a directory, `dump_cover` the cover
    image under an extension found from its magic bytes, and
    `dump_embedded_source` the archived source under `.epub` or `.zip`.
    Each is specified by the list of helper calls it makes. */
module Dump {
  import opened Common
  import opened Names
  import opened Parts
  import opened Output
  import Epub

  // ---------------------------------------------------------------- dump_rawml_parts

  /** The directory `create_subdir` makes inside `parent`; a name that
      does not fit the buffer is refused. */
  function SubdirPath(parent: string, name: string, separator: char): (r: Option<string>)
    ensures r.Some? <==> |parent| + 1 + |name| < FILENAME_MAX
    ensures r.Some? ==> r.value == parent + [separator] + name
  {
    if |parent| + 1 + |name| < FILENAME_MAX then Some(parent + [separator] + name) else None
  }

  /** One markup or flow part written into `dir` as `prefix%05zu.ext`. */
  function PartStep(dir: string, p: Part, prefix: string, meta: nat -> FileMeta): Step
  {
    Act(WriteToDir(dir, PartName(prefix, p, meta), p.data))
  }

  function PartSteps(dir: string, ps: seq<Part>, prefix: string, meta: nat -> FileMeta): (r: seq<Step>)
    ensures |r| == |ps|
  {
    seq(|ps|, j requires 0 <= j < |ps| => PartStep(dir, ps[j], prefix, meta))
  }

  /** The file name of a resource: the OPF document is `content.opf` when an
      EPUB layout is dumped, the rest are numbered. */
  function ResourceFileName(p: Part, meta: nat -> FileMeta, epubLayout: bool): string
  {
    if epubLayout && meta(p.partType).fileType == Opf then "content.opf"
    else NumberedName("resource", p.uid, meta(p.partType).extension)
  }

  /** One resource: skipped when empty, refused when its full path does not
      fit the name buffer, else written to `dir` + separator + its name. */
  function ResourceStep(dir: string, separator: char, p: Part, meta: nat -> FileMeta, epubLayout: bool): Step
  {
    var full := dir + [separator] + ResourceFileName(p, meta, epubLayout);
    if !Written(p) then Skip
    else if |full| >= FILENAME_MAX then Refuse
    else Act(WriteFile(full, p.data))
  }

  function ResourceSteps(dir: string, separator: char, ps: seq<Part>, meta: nat -> FileMeta, epubLayout: bool): (r: seq<Step>)
    ensures |r| == |ps|
  {
    seq(|ps|, j requires 0 <= j < |ps| => ResourceStep(dir, separator, ps[j], meta, epubLayout))
  }

  /** The parts written into the output directory `out`. */
  function ContentSteps(out: string, separator: char, r: Rawml, meta: nat -> FileMeta, epubLayout: bool): seq<Step>
  {
    PartSteps(out, r.markup, "part", meta) + PartSteps(out, FlowTail(r.flow), "flow", meta)
    + ResourceSteps(out, separator, r.resources, meta, epubLayout)
  }

  /** The fixed files of the EPUB layout inside `META-INF`: the container
      document, then the media type. */
  function MetaInfSteps(metaInf: string): seq<Step>
  {
    [Act(MakeDir(metaInf)),
     Act(WriteToDir(metaInf, "container.xml", Latin1(EPUB_CONTAINER))),
     Act(WriteToDir(metaInf, "mimetype", Latin1(EPUB_MIMETYPE)))]
  }

  /** The EPUB layout below the markup directory `dir`: `META-INF`, then
      everything else in `OEBPS`. */
  function EpubLayoutSteps(dir: string, separator: char, r: Rawml, meta: nat -> FileMeta): seq<Step>
  {
    var metaInf := SubdirPath(dir, "META-INF", separator);
    var oebps := SubdirPath(dir, "OEBPS", separator);
    if metaInf.None? then [Refuse]
    else if oebps.None? then MetaInfSteps(metaInf.value) + [Refuse]
    else MetaInfSteps(metaInf.value) + [Act(MakeDir(oebps.value))] + ContentSteps(oebps.value, separator, r, meta, true)
  }

  /** `dump_rawml_parts` for the input named `basename` in `dir` (the
      output directory or the input's own). */
  function DumpPartsSteps(rawml: Option<Rawml>, meta: nat -> FileMeta, dir: string, basename: string,
                          separator: char, epubLayout: bool): (r: seq<Step>)
    ensures rawml.None? ==> r == [Refuse]
  {
    var markupDir := CreatePath(dir, basename, "_markup", FILENAME_MAX);
    if rawml.None? || markupDir.None? then [Refuse]
    else if epubLayout then [Act(MakeDir(markupDir.value))] + EpubLayoutSteps(markupDir.value, separator, rawml.value, meta)
    else [Act(MakeDir(markupDir.value))] + ContentSteps(markupDir.value, separator, rawml.value, meta, false)
  }

  /** A reconstruction with no parts at all is not an error: outside the
      EPUB layout only the markup directory is made, and the dump succeeds
      when that call does. */
  lemma NoPartsOnlyMakesDir(meta: nat -> FileMeta, dir: string, basename: string, separator: char)
    requires |dir| + |basename| + 7 < FILENAME_MAX
    ensures DumpPartsSteps(Some(Rawml([], [], [])), meta, dir, basename, separator, false) ==
      [Act(MakeDir(dir + basename + "_markup"))]
    ensures Run(Outcome(true, 0, []), [Act(MakeDir(dir + basename + "_markup"))], None) ==
      Outcome(true, 1, [MakeDir(dir + basename + "_markup")])
  {
    assert ContentSteps(dir + basename + "_markup", separator, Rawml([], [], []), meta, false) == [];
    assert [Act(MakeDir(dir + basename + "_markup"))][..0] == [];
  }

  /** Running `a` and then `b`, when `a` already failed, is running `a`. */
  lemma RunThen(o: Outcome, a: seq<Step>, b: seq<Step>, failsAt: Option<nat>)
    requires !Run(o, a, failsAt).ok
    ensures Run(o, a + b, failsAt) == Run(o, a, failsAt)
  {
    RunAppend(o, a, b, failsAt);
    RunStopped(Run(o, a, failsAt), b, failsAt);
  }

  /** Three steps run one after the other. */
  lemma Run3(o: Outcome, s0: Step, s1: Step, s2: Step, failsAt: Option<nat>)
    ensures Run(o, [s0, s1, s2], failsAt) == Exec(Exec(Exec(o, s0, failsAt), s1, failsAt), s2, failsAt)
  {
    assert [s0][..0] == [];
    assert Run(o, [s0], failsAt) == Exec(o, s0, failsAt);
    assert [s0, s1][..1] == [s0];
    assert Run(o, [s0, s1], failsAt) == Exec(Run(o, [s0], failsAt), s1, failsAt);
    assert [s0, s1, s2][..2] == [s0, s1];
  }

  /** Runs one list of steps, each computed by the loop body; `steps` is
      what the loop over `ps` does. */
  method WriteParts(sink: FileSink, dir: string, ps: seq<Part>, prefix: string, meta: nat -> FileMeta) returns (ok: bool)
    modifies sink
    ensures sink.State(ok) == Run(old(sink.State(true)), PartSteps(dir, ps, prefix, meta), sink.failsAt)
  {
    ghost var steps := PartSteps(dir, ps, prefix, meta);
    ghost var o0 := sink.State(true);
    var i := 0;
    ok := true;
    while i < |ps| && ok
      invariant 0 <= i <= |ps|
      invariant sink.State(ok) == Run(o0, steps[..i], sink.failsAt)
      decreases |ps| - i
    {
      var name := Truncated(NumberedName(prefix, ps[i].uid, meta(ps[i].partType).extension), FILENAME_MAX);
      ok := sink.Perform(WriteToDir(dir, name, ps[i].data));
      assert steps[..i + 1][..i] == steps[..i];
      i := i + 1;
    }
    if i < |ps| {
      assert steps == steps[..i] + steps[i..];
      RunThen(o0, steps[..i], steps[i..], sink.failsAt);
    } else {
      assert steps[..i] == steps;
    }
  }

  /** One turn of the resource loop. */
  method WriteResource(sink: FileSink, dir: string, separator: char, p: Part, meta: nat -> FileMeta, epubLayout: bool)
    returns (ok: bool)
    modifies sink
    ensures sink.State(ok) == Exec(old(sink.State(true)), ResourceStep(dir, separator, p, meta, epubLayout), sink.failsAt)
  {
    ok := true;
    if |p.data| > 0 {
      var file := if epubLayout && meta(p.partType).fileType == Opf then "content.opf"
        else NumberedName("resource", p.uid, meta(p.partType).extension);
      var full := dir + [separator] + file;
      if |full| >= FILENAME_MAX {
        ok := false;
      } else {
        ok := sink.Perform(WriteFile(full, p.data));
      }
    }
  }

  /** The loop over the resources. */
  method WriteResources(sink: FileSink, dir: string, separator: char, ps: seq<Part>, meta: nat -> FileMeta, epubLayout: bool)
    returns (ok: bool)
    modifies sink
    ensures sink.State(ok) == Run(old(sink.State(true)), ResourceSteps(dir, separator, ps, meta, epubLayout), sink.failsAt)
  {
    ghost var steps := ResourceSteps(dir, separator, ps, meta, epubLayout);
    ghost var o0 := sink.State(true);
    var i := 0;
    ok := true;
    while i < |ps| && ok
      invariant 0 <= i <= |ps|
      invariant sink.State(ok) == Run(o0, steps[..i], sink.failsAt)
      decreases |ps| - i
    {
      assert steps[..i + 1][..i] == steps[..i];
      assert steps[i] == ResourceStep(dir, separator, ps[i], meta, epubLayout);
      ok := WriteResource(sink, dir, separator, ps[i], meta, epubLayout);
      i := i + 1;
    }
    if i < |ps| {
      assert steps == steps[..i] + steps[i..];
      RunThen(o0, steps[..i], steps[i..], sink.failsAt);
    } else {
      assert steps[..i] == steps;
    }
  }

  /** The part lists written into `out`. */
  method WriteContents(sink: FileSink, out: string, separator: char, r: Rawml, meta: nat -> FileMeta, epubLayout: bool)
    returns (ok: bool)
    modifies sink
    ensures sink.State(ok) == Run(old(sink.State(true)), ContentSteps(out, separator, r, meta, epubLayout), sink.failsAt)
  {
    ghost var o0 := sink.State(true);
    ghost var a := PartSteps(out, r.markup, "part", meta);
    ghost var b := PartSteps(out, FlowTail(r.flow), "flow", meta);
    ghost var c := ResourceSteps(out, separator, r.resources, meta, epubLayout);
    RunAppend(o0, a + b, c, sink.failsAt);
    RunAppend(o0, a, b, sink.failsAt);
    ok := WriteParts(sink, out, r.markup, "part", meta);
    if !ok {
      RunStopped(Run(o0, a, sink.failsAt), b, sink.failsAt);
      RunStopped(Run(o0, a + b, sink.failsAt), c, sink.failsAt);
      return;
    }
    ok := WriteParts(sink, out, FlowTail(r.flow), "flow", meta);
    if !ok {
      RunStopped(Run(o0, a + b, sink.failsAt), c, sink.failsAt);
      return;
    }
    ok := WriteResources(sink, out, separator, r.resources, meta, epubLayout);
  }

  /** The EPUB layout below `dir`. */
  method WriteEpubLayout(sink: FileSink, dir: string, separator: char, r: Rawml, meta: nat -> FileMeta) returns (ok: bool)
    modifies sink
    ensures sink.State(ok) == Run(old(sink.State(true)), EpubLayoutSteps(dir, separator, r, meta), sink.failsAt)
  {
    ghost var o0 := sink.State(true);
    if |dir| + 1 + |"META-INF"| >= FILENAME_MAX {
      return false;
    }
    var metaInf := dir + [separator] + "META-INF";
    ghost var m := MetaInfSteps(metaInf);
    ok := WriteMetaInf(sink, metaInf);
    ghost var rest := if |dir| + 1 + |"OEBPS"| < FILENAME_MAX
      then [Act(MakeDir(dir + [separator] + "OEBPS"))] + ContentSteps(dir + [separator] + "OEBPS", separator, r, meta, true)
      else [Refuse];
    assert EpubLayoutSteps(dir, separator, r, meta) == m + rest;
    RunAppend(o0, m, rest, sink.failsAt);
    if !ok {
      RunStopped(sink.State(false), rest, sink.failsAt);
      return;
    }
    if |dir| + 1 + |"OEBPS"| >= FILENAME_MAX {
      return false;
    }
    ok := WriteOebps(sink, dir + [separator] + "OEBPS", separator, r, meta);
  }

  /** The `META-INF` directory with the container document and the media type. */
  method WriteMetaInf(sink: FileSink, metaInf: string) returns (ok: bool)
    modifies sink
    ensures sink.State(ok) == Run(old(sink.State(true)), MetaInfSteps(metaInf), sink.failsAt)
  {
    ghost var o0 := sink.State(true);
    ghost var m := MetaInfSteps(metaInf);
    Run3(o0, m[0], m[1], m[2], sink.failsAt);
    assert m == [m[0], m[1], m[2]];
    ok := sink.Perform(MakeDir(metaInf));
    ghost var d1 := sink.State(ok);
    if ok {
      ok := sink.Perform(WriteToDir(metaInf, "container.xml", Latin1(EPUB_CONTAINER)));
    }
    ghost var o2 := sink.State(ok);
    assert o2 == Exec(d1, m[1], sink.failsAt);
    if ok {
      ok := sink.Perform(WriteToDir(metaInf, "mimetype", Latin1(EPUB_MIMETYPE)));
    }
    assert sink.State(ok) == Exec(o2, m[2], sink.failsAt);
  }

  /** The `OEBPS` directory and the parts in it. */
  method WriteOebps(sink: FileSink, oebps: string, separator: char, r: Rawml, meta: nat -> FileMeta) returns (ok: bool)
    modifies sink
    ensures sink.State(ok) == Run(old(sink.State(true)), [Act(MakeDir(oebps))] + ContentSteps(oebps, separator, r, meta, true), sink.failsAt)
  {
    ghost var o1 := sink.State(true);
    ghost var content := ContentSteps(oebps, separator, r, meta, true);
    RunAppend(o1, [Act(MakeDir(oebps))], content, sink.failsAt);
    ok := sink.Perform(MakeDir(oebps));
    if !ok {
      RunStopped(sink.State(false), content, sink.failsAt);
      return;
    }
    ok := WriteContents(sink, oebps, separator, r, meta, true);
  }

  /** `dump_rawml_parts`. */
  method DumpRawmlParts(sink: FileSink, rawml: Option<Rawml>, meta: nat -> FileMeta, dir: string, basename: string,
                        separator: char, epubLayout: bool) returns (ret: ToolRet)
    modifies sink
    ensures sink.State(ret == ToolSuccess) ==
      Run(old(sink.State(true)), DumpPartsSteps(rawml, meta, dir, basename, separator, epubLayout), sink.failsAt)
  {
    ghost var o0 := sink.State(true);
    if rawml.None? || |dir| + |basename| + |"_markup"| >= FILENAME_MAX {
      return ToolError;
    }
    var markupDir := dir + basename + "_markup";
    ghost var rest := if epubLayout then EpubLayoutSteps(markupDir, separator, rawml.value, meta)
      else ContentSteps(markupDir, separator, rawml.value, meta, false);
    RunAppend(o0, [Act(MakeDir(markupDir))], rest, sink.failsAt);
    var ok := sink.Perform(MakeDir(markupDir));
    if !ok {
      RunStopped(sink.State(false), rest, sink.failsAt);
      return ToolError;
    }
    if epubLayout {
      ok := WriteEpubLayout(sink, markupDir, separator, rawml.value, meta);
    } else {
      ok := WriteContents(sink, markupDir, separator, rawml.value, meta, false);
    }
    ret := if ok then ToolSuccess else ToolError;
  }

  /** The files the resource loop writes when every name fits. */
  function ResourceWrites(dir: string, separator: char, ps: seq<Part>, meta: nat -> FileMeta, epubLayout: bool): (r: seq<Action>)
    ensures |r| == |ps|
  {
    seq(|ps|, j requires 0 <= j < |ps| => WriteFile(dir + [separator] + ResourceFileName(ps[j], meta, epubLayout), ps[j].data))
  }

  predicate NamesFit(dir: string, ps: seq<Part>, meta: nat -> FileMeta, epubLayout: bool)
  {
    forall j :: 0 <= j < |ps| ==> |dir| + 1 + |ResourceFileName(ps[j], meta, epubLayout)| < FILENAME_MAX
  }

  /** The steps of all but the last resource are those of the shorter list. */
  lemma ResourceStepsFront(dir: string, separator: char, ps: seq<Part>, meta: nat -> FileMeta, epubLayout: bool)
    requires ps != []
    ensures ResourceSteps(dir, separator, ps, meta, epubLayout)[..|ps| - 1]
      == ResourceSteps(dir, separator, ps[..|ps| - 1], meta, epubLayout)
  {
  }

  /** One more written resource adds its write at the end. */
  lemma ResourceWritesAppend(dir: string, separator: char, ws: seq<Part>, p: Part, meta: nat -> FileMeta, epubLayout: bool)
    ensures ResourceWrites(dir, separator, ws + [p], meta, epubLayout)
      == ResourceWrites(dir, separator, ws, meta, epubLayout) + [WriteFile(dir + [separator] + ResourceFileName(p, meta, epubLayout), p.data)]
  {
  }

  /** When every name fits, no resource is refused. */
  lemma ResourcesFit(dir: string, separator: char, ps: seq<Part>, meta: nat -> FileMeta, epubLayout: bool)
    requires NamesFit(dir, ps, meta, epubLayout)
    ensures NoRefusal(ResourceSteps(dir, separator, ps, meta, epubLayout))
  {
    var steps := ResourceSteps(dir, separator, ps, meta, epubLayout);
    forall j | 0 <= j < |steps| ensures !steps[j].Refuse? {
      assert steps[j] == ResourceStep(dir, separator, ps[j], meta, epubLayout);
    }
  }

  /** The names of all but the last resource fit when all of them do. */
  lemma NamesFitFront(dir: string, ps: seq<Part>, meta: nat -> FileMeta, epubLayout: bool)
    requires ps != [] && NamesFit(dir, ps, meta, epubLayout)
    ensures NamesFit(dir, ps[..|ps| - 1], meta, epubLayout)
  {
    var front := ps[..|ps| - 1];
    forall j | 0 <= j < |front| ensures |dir| + 1 + |ResourceFileName(front[j], meta, epubLayout)| < FILENAME_MAX {
      assert front[j] == ps[j];
    }
  }

  /** The helper calls of the resource steps, one step more. */
  lemma ResourceActionsNext(dir: string, separator: char, ps: seq<Part>, meta: nat -> FileMeta, epubLayout: bool)
    requires ps != [] && NamesFit(dir, ps, meta, epubLayout)
    ensures var last := ps[|ps| - 1];
      Actions(ResourceSteps(dir, separator, ps, meta, epubLayout)) ==
      Actions(ResourceSteps(dir, separator, ps[..|ps| - 1], meta, epubLayout)) +
      (if Written(last) then [WriteFile(dir + [separator] + ResourceFileName(last, meta, epubLayout), last.data)] else [])
  {
    var steps := ResourceSteps(dir, separator, ps, meta, epubLayout);
    var last := ps[|ps| - 1];
    ResourceStepsFront(dir, separator, ps, meta, epubLayout);
    assert steps[|steps| - 1] == ResourceStep(dir, separator, last, meta, epubLayout);
    assert |dir| + 1 + |ResourceFileName(last, meta, epubLayout)| < FILENAME_MAX;
  }

  /** When every name fits, the resource loop refuses nothing and writes
      exactly the nonempty resources, in list order. */
  lemma {:induction false} ResourcesWritten(dir: string, separator: char, ps: seq<Part>, meta: nat -> FileMeta, epubLayout: bool)
    requires NamesFit(dir, ps, meta, epubLayout)
    ensures NoRefusal(ResourceSteps(dir, separator, ps, meta, epubLayout))
    ensures Actions(ResourceSteps(dir, separator, ps, meta, epubLayout)) == ResourceWrites(dir, separator, WrittenParts(ps), meta, epubLayout)
    decreases |ps|
  {
    ResourcesFit(dir, separator, ps, meta, epubLayout);
    if ps != [] {
      var front := ps[..|ps| - 1];
      var last := ps[|ps| - 1];
      NamesFitFront(dir, ps, meta, epubLayout);
      ResourcesWritten(dir, separator, front, meta, epubLayout);
      ResourceActionsNext(dir, separator, ps, meta, epubLayout);
      var w := WrittenParts(front);
      assert WrittenParts(ps) == if Written(last) then w + [last] else w;
      ResourceWritesAppend(dir, separator, w, last, meta, epubLayout);
    } else {
      assert ResourceSteps(dir, separator, ps, meta, epubLayout) == [];
    }
  }




  /** Below `OEBPS/`, the dump names a markup or flow part as the EPUB
      entry for it does, when the entry name is not truncated. */
  lemma PartNameUnderOebps(prefix: string, p: Part, meta: nat -> FileMeta)
    requires |NumberedName("OEBPS/" + prefix, p.uid, meta(p.partType).extension)| < FILENAME_MAX
    ensures "OEBPS/" + PartName(prefix, p, meta) == PartName("OEBPS/" + prefix, p, meta)
  {
    var ext := meta(p.partType).extension;
    assert NumberedName("OEBPS/" + prefix, p.uid, ext) == "OEBPS/" + NumberedName(prefix, p.uid, ext);
  }

  /** Below `OEBPS/`, the dump names a resource as the EPUB entry for it
      does, the package document included. */
  lemma ResourceNameUnderOebps(p: Part, meta: nat -> FileMeta)
    requires |NumberedName("OEBPS/resource", p.uid, meta(p.partType).extension)| < FILENAME_MAX
    ensures "OEBPS/" + ResourceFileName(p, meta, true) == Epub.ResourceName(p, meta)
  {
    if meta(p.partType).fileType != Opf {
      PartNameUnderOebps("resource", p, meta);
    }
  }

  /** In the EPUB layout the media-type file is written into `META-INF`,
      next to the container document, and not at the top of the layout. */
  lemma MimetypeInMetaInf(dir: string, separator: char, r: Rawml, meta: nat -> FileMeta)
    requires |dir| + 1 + |"META-INF"| < FILENAME_MAX
    ensures var steps := EpubLayoutSteps(dir, separator, r, meta);
      |steps| >= 3 &&
      steps[1] == Act(WriteToDir(dir + [separator] + "META-INF", "container.xml", Latin1(EPUB_CONTAINER))) &&
      steps[2] == Act(WriteToDir(dir + [separator] + "META-INF", "mimetype", Latin1(EPUB_MIMETYPE)))
  {
  }

  // ---------------------------------------------------------------- dump_cover

  const JPG_MAGIC: seq<u8> := [0xFF, 0xD8, 0xFF]
  const GIF_MAGIC: seq<u8> := [0x47, 0x49, 0x46, 0x38]  // "GIF8"
  /** The PNG file signature (section 3.1 of RFC 2083). */
  const PNG_MAGIC: seq<u8> := [0x89, 0x50, 0x4E, 0x47, 0x0D, 0x0A, 0x1A, 0x0A]
  const BMP_MAGIC: seq<u8> := [0x42, 0x4D]  // "BM"

  predicate IsJpeg(d: seq<u8>) requires |d| >= 4 { d[..3] == JPG_MAGIC }
  predicate IsGif(d: seq<u8>) requires |d| >= 4 { d[..4] == GIF_MAGIC }
  predicate IsPng(d: seq<u8>) { |d| >= 8 && d[..8] == PNG_MAGIC }
  /** "BM" followed by the file size, little-endian, which must be the record's size. */
  predicate IsBmp(d: seq<u8>) { |d| >= 6 && d[..2] == BMP_MAGIC && LE32(d[2..6]) == |d| }

  /** The extension `dump_cover` gives a cover record of at least four
      bytes: the first of jpg, gif, png and bmp whose test passes, else raw. */
  function CoverExtension(d: seq<u8>): (ext: string)
    requires |d| >= 4
    ensures ext == "jpg" || ext == "gif" || ext == "png" || ext == "bmp" || ext == "raw"
    ensures ext == "jpg" <==> IsJpeg(d)
    ensures ext == "gif" <==> !IsJpeg(d) && IsGif(d)
    ensures ext == "png" <==> !IsJpeg(d) && !IsGif(d) && IsPng(d)
    ensures ext == "bmp" <==> !IsJpeg(d) && !IsGif(d) && !IsPng(d) && IsBmp(d)
  {
    if IsJpeg(d) then "jpg"
    else if IsGif(d) then "gif"
    else if IsPng(d) then "png"
    else if IsBmp(d) then "bmp"
    else "raw"
  }

  /** `_cover.%s`, which fits its 12-byte buffer. */
  function CoverSuffix(d: seq<u8>): (r: string)
    requires |d| >= 4
    ensures |r| < 12
  {
    "_cover." + CoverExtension(d)
  }

  /** The cover record: the record the EXTH cover offset points to, counted
      from the first resource record; None when there is no cover offset or
      no such record. */
  function CoverRecord(records: seq<seq<u8>>, coverOffset: Option<u32>, firstResource: nat): (r: Option<seq<u8>>)
    ensures r.Some? <==> coverOffset.Some? && firstResource + coverOffset.value < |records|
    ensures r.Some? ==> r.value == records[firstResource + coverOffset.value]
  {
    if coverOffset.Some? && firstResource + coverOffset.value < |records| then
      Some(records[firstResource + coverOffset.value])
    else None
  }

  /** `dump_cover`: a missing or too short record is "not found"; the cover
      is saved as `dir + basename + "_cover." + ext`. */
  function CoverSteps(record: Option<seq<u8>>, dir: string, basename: string): (r: seq<Step>)
    ensures record.None? || |record.value| < 4 ==> r == [Refuse]
    ensures r != [Refuse] ==>
      (record.Some? && |record.value| >= 4 &&
       r == [Act(WriteFile(dir + basename + CoverSuffix(record.value), record.value))])
  {
    if record.None? || |record.value| < 4 then [Refuse]
    else
      var path := CreatePath(dir, basename, CoverSuffix(record.value), FILENAME_MAX);
      if path.None? then [Refuse] else [Act(WriteFile(path.value, record.value))]
  }

  /** `dump_cover` on the book's records, with the EXTH cover offset (None
      when the book has no such EXTH record) and the first resource record. */
  method DumpCover(sink: FileSink, records: seq<seq<u8>>, coverOffset: Option<u32>, firstResource: nat,
                   dir: string, basename: string) returns (ret: ToolRet)
    modifies sink
    ensures sink.State(ret == ToolSuccess) ==
      Run(old(sink.State(true)), CoverSteps(CoverRecord(records, coverOffset, firstResource), dir, basename), sink.failsAt)
  {
    var record: Option<seq<u8>> := None;
    if coverOffset.Some? {
      var uid := firstResource + coverOffset.value as nat;
      if uid < |records| {
        record := Some(records[uid]);
      }
    }
    if record.None? || |record.value| < 4 {
      return ToolError;
    }
    var d := record.value;
    var ext := "raw";
    if d[..3] == JPG_MAGIC {
      ext := "jpg";
    } else if d[..4] == GIF_MAGIC {
      ext := "gif";
    } else if |d| >= 8 && d[..8] == PNG_MAGIC {
      ext := "png";
    } else if |d| >= 6 && d[..2] == BMP_MAGIC {
      var bmpSize := d[2] as int + d[3] as int * 0x100 + d[4] as int * 0x1_0000 + d[5] as int * 0x100_0000;
      if |d| == bmpSize {
        ext := "bmp";
      }
    }
    var suffix := "_cover." + ext;
    if |dir| + |basename| + |suffix| >= FILENAME_MAX {
      return ToolError;
    }
    var ok := sink.Perform(WriteFile(dir + basename + suffix, d));
    ret := if ok then ToolSuccess else ToolError;
  }

  /** A PNG image is recognised as one. */
  lemma PngDetected(rest: seq<u8>)
    ensures CoverExtension(PNG_MAGIC + rest) == "png"
  {
    var d := PNG_MAGIC + rest;
    assert d[..8] == PNG_MAGIC;
    assert d[0] == 0x89;
  }

  /** A JPEG image (SOI marker and the first byte of the next marker) is
      recognised as one. */
  lemma JpegDetected(b: u8, rest: seq<u8>)
    ensures CoverExtension(JPG_MAGIC + [b] + rest) == "jpg"
  {
    assert (JPG_MAGIC + [b] + rest)[..3] == JPG_MAGIC;
  }

  /** A bitmap whose header holds its own size is recognised as one, and one
      whose size field disagrees falls back to raw. */
  lemma BmpDetected(size: u32, rest: seq<u8>)
    ensures var d := BMP_MAGIC + BytesLE32(size) + rest;
      CoverExtension(d) == (if size == |d| && !IsPng(d) then "bmp" else if IsPng(d) then "png" else "raw")
  {
    var d := BMP_MAGIC + BytesLE32(size) + rest;
    assert d[..2] == BMP_MAGIC && d[2..6] == BytesLE32(size);
    LE32RoundTrip(size);
    assert d[0] == 0x42;
  }

  // ---------------------------------------------------------------- dump_embedded_source

  /** After the 30 fixed bytes of a ZIP local file header (section 4.3.7 of
      the PKWARE APPNOTE) come the entry's name and, when stored, its data:
      an EPUB's first entry is `mimetype` holding `application/epub+zip`. */
  const ZIP_LOCAL_HEADER_LEN: nat := 30
  const EPUB_MAGIC: string := "mimetypeapplication/epub+zip"

  /** The extension `dump_embedded_source` gives the archived source. */
  function SourceExtension(d: seq<u8>): (ext: string)
    ensures ext == "epub" || ext == "zip"
    ensures ext == "epub" <==>
      |d| > ZIP_LOCAL_HEADER_LEN + |EPUB_MAGIC| &&
      d[ZIP_LOCAL_HEADER_LEN..ZIP_LOCAL_HEADER_LEN + |EPUB_MAGIC|] == Latin1(EPUB_MAGIC)
  {
    if |d| > ZIP_LOCAL_HEADER_LEN + |EPUB_MAGIC|
       && d[ZIP_LOCAL_HEADER_LEN..ZIP_LOCAL_HEADER_LEN + |EPUB_MAGIC|] == Latin1(EPUB_MAGIC)
    then "epub" else "zip"
  }

  /** An archive whose first entry is the stored media type, followed by
      anything, is named `.epub`. */
  lemma EpubSourceDetected(header: seq<u8>, rest: seq<u8>)
    requires |header| == ZIP_LOCAL_HEADER_LEN && |rest| >= 1
    ensures SourceExtension(header + Latin1("mimetype") + Latin1(EPUB_MIMETYPE) + rest) == "epub"
  {
    var d := header + Latin1("mimetype") + Latin1(EPUB_MIMETYPE) + rest;
    assert Latin1("mimetype") + Latin1(EPUB_MIMETYPE) == Latin1(EPUB_MAGIC);
    assert d[30..58] == Latin1(EPUB_MAGIC);
  }

  /** An archive of at most 58 bytes is never taken for an EPUB. */
  lemma ShortSourceIsZip(d: seq<u8>)
    requires |d| <= ZIP_LOCAL_HEADER_LEN + |EPUB_MAGIC|
    ensures SourceExtension(d) == "zip"
  {
  }

  /** `dump_embedded_source`, given what `mobi_get_embedded_source` and
      `mobi_get_embedded_log` return: an error from either is an ERROR, an
      empty one ends the dump with SUCCESS. */
  function SourceSteps(source: Result<seq<u8>>, convLog: Result<seq<u8>>, dir: string, basename: string): (r: seq<Step>)
    ensures source.Err? ==> r == [Refuse]
    ensures source == Ok([]) ==> r == []
  {
    if source.Err? then [Refuse]
    else if source.value == [] then []
    else
      var data := source.value;
      var sourceDir := CreatePath(dir, basename, "_source", FILENAME_MAX);
      var name := basename + "_source." + SourceExtension(data);
      var logName := basename + "_source.txt";
      if sourceDir.None? then [Refuse]
      else
        [Act(MakeDir(sourceDir.value))] +
        if |name| >= FILENAME_MAX then [Refuse]
        else
          [Act(WriteToDir(sourceDir.value, name, data))] +
          if convLog.Err? then [Refuse]
          else if convLog.value == [] then []
          else if |logName| >= FILENAME_MAX then [Refuse]
          else [Act(WriteToDir(sourceDir.value, logName, convLog.value))]
  }

  method DumpEmbeddedSource(sink: FileSink, source: Result<seq<u8>>, convLog: Result<seq<u8>>, dir: string, basename: string)
    returns (ret: ToolRet)
    modifies sink
    ensures sink.State(ret == ToolSuccess) == Run(old(sink.State(true)), SourceSteps(source, convLog, dir, basename), sink.failsAt)
  {
    ghost var o0 := sink.State(true);
    ghost var steps := SourceSteps(source, convLog, dir, basename);
    if source.Err? {
      return ToolError;
    }
    var data := source.value;
    if data == [] {
      return ToolSuccess;
    }
    if |dir| + |basename| + |"_source"| >= FILENAME_MAX {
      return ToolError;
    }
    var sourceDir := dir + basename + "_source";
    RunAppend(o0, [steps[0]], steps[1..], sink.failsAt);
    assert steps == [steps[0]] + steps[1..];
    var ok := sink.Perform(MakeDir(sourceDir));
    if !ok {
      RunStopped(sink.State(false), steps[1..], sink.failsAt);
      return ToolError;
    }
    var ext := if |data| > 58 && data[30..58] == Latin1(EPUB_MAGIC) then "epub" else "zip";
    var name := basename + "_source." + ext;
    if |name| >= FILENAME_MAX {
      return ToolError;
    }
    ghost var o1 := sink.State(true);
    ghost var tail := steps[1..];
    RunAppend(o1, [tail[0]], tail[1..], sink.failsAt);
    assert tail == [tail[0]] + tail[1..];
    ok := sink.Perform(WriteToDir(sourceDir, name, data));
    if !ok {
      RunStopped(sink.State(false), tail[1..], sink.failsAt);
      return ToolError;
    }
    if convLog.Err? {
      return ToolError;
    }
    if convLog.value == [] {
      return ToolSuccess;
    }
    var logName := basename + "_source.txt";
    if |logName| >= FILENAME_MAX {
      return ToolError;
    }
    ok := sink.Perform(WriteToDir(sourceDir, logName, convLog.value));
    ret := if ok then ToolSuccess else ToolError;
  }
}
