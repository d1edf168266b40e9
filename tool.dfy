/** The driver of mobiconvert/mobitool.c: `loadmemory` loads a book from a
    memory buffer and, as the global options say, reconstructs its parts
    and builds the EPUB; `ConvertMobiToEpub` is the library entry point that
    turns the EPUB option on first. `loadmemory` calls none of the dump
    functions: they are modelled on their own in module Dump. */
module Tool {
  import opened Common
  import opened Names
  import opened Parts
  import opened MemFile
  import Loader
  import Epub
  import Pdb

  /** The option flags `loadmemory` reads and may clear. */
  datatype Flags = Flags(createEpub: bool, dumpParts: bool, split: bool, outdir: bool)

  /** What code outside the model reports about the loaded book:
      `mobi_is_mobipocket` and the KF8 boundary the loader asks for,
      `mobi_is_replica`, `mobi_is_hybrid`, the result of
      `mobi_parse_rawml` (None when parsing fails), the file-type table and
      the ZIP writer call that fails. */
  datatype Book = Book(isMobipocket: bool, boundary: Option<nat>, isReplica: bool, isHybrid: bool,
                       rawml: Option<Rawml>, meta: nat -> FileMeta, zipFailsAt: Option<nat>)

  /** The tool's return code, the EPUB archive it hands out and the flags
      it leaves behind. */
  datatype ToolOutcome = ToolOutcome(ret: ToolRet, out: Option<seq<Epub.ZipEntry>>, flags: Flags)

  /** The global option flags. */
  class Options {
    var createEpub: bool
    var dumpParts: bool
    var split: bool
    var outdir: bool

    /** Every option starts off; `outdir_opt` is not declared in the file
        and is assumed to start off as well. */
    constructor ()
      ensures Current() == Flags(false, false, false, false)
    {
      createEpub, dumpParts, split, outdir := false, false, false, false;
    }

    function Current(): Flags
      reads this
    {
      Flags(createEpub, dumpParts, split, outdir)
    }
  }

  /** Whether the loader accepts the buffer. */
  function LoadRet(buffer: seq<u8>, book: Book): MobiRet
  {
    Loader.LoadFileSpec(buffer, book.isMobipocket, book.boundary, Loader.MobiState(None, [], None, None, None, None, None)).ret
  }

  /** `loadmemory`: a load error is an ERROR; the EPUB option is dropped for
      a Print Replica book; the parts are reconstructed when either the
      parts option or the EPUB option is on, and a failure there is an ERROR
      with the split option untouched; the reconstruction is then freed
      without being dumped, and the EPUB is built only when the parts option
      is off; splitting is dropped for a book that is not hybrid. */
  function LoadMemorySpec(f: Flags, buffer: seq<u8>, book: Book): (r: ToolOutcome)
    ensures r.flags.dumpParts == f.dumpParts && r.flags.outdir == f.outdir
    ensures r.flags.createEpub ==> f.createEpub
    ensures r.flags.split ==> f.split
    ensures LoadRet(buffer, book) != Success ==> r == ToolOutcome(ToolError, None, f)
  {
    if LoadRet(buffer, book) != Success then ToolOutcome(ToolError, None, f)
    else
      var f1 := f.(createEpub := f.createEpub && !book.isReplica);
      var f2 := f1.(split := f1.split && book.isHybrid);
      if !(f1.dumpParts || f1.createEpub) then ToolOutcome(ToolSuccess, None, f2)
      else if book.rawml.None? then ToolOutcome(ToolError, None, f1)
      else if f1.createEpub && !f1.dumpParts then
        var e := Epub.CreateEpubSpec(book.rawml, book.meta, book.zipFailsAt);
        ToolOutcome(e.ret, e.out, f2)
      else ToolOutcome(ToolSuccess, None, f2)
  }

  /** `mobi_init` and `mobi_load_file_memory` on a memory file over the buffer. */
  method LoadBuffer(buffer: seq<u8>, book: Book) returns (ret: MobiRet)
    ensures ret == LoadRet(buffer, book)
  {
    var m := new Loader.MobiData.Init();
    var mf := new MemoryFile(buffer);
    ret := Loader.LoadFileMemory(m, mf, book.isMobipocket, book.boundary);
  }

  method LoadMemory(opts: Options, buffer: seq<u8>, book: Book) returns (ret: ToolRet, out: Option<seq<Epub.ZipEntry>>)
    modifies opts
    ensures ToolOutcome(ret, out, opts.Current()) == LoadMemorySpec(old(opts.Current()), buffer, book)
  {
    ret, out := ToolSuccess, None;
    var mobiRet := LoadBuffer(buffer, book);
    if mobiRet != Success {
      return ToolError, None;
    }
    if opts.createEpub && book.isReplica {
      opts.createEpub := false;
    }
    if opts.dumpParts || opts.createEpub {
      if book.rawml.None? {
        return ToolError, None;
      }
      if opts.createEpub && !opts.dumpParts {
        ret, out := Epub.CreateEpub(book.rawml, book.meta, book.zipFailsAt);
      }
    }
    if opts.split && !book.isHybrid {
      opts.split := false;
    }
  }

  /** `ConvertMobiToEpub`: the EPUB and output-directory options on, then
      `loadmemory`. */
  method ConvertMobiToEpub(opts: Options, buffer: seq<u8>, book: Book) returns (ret: ToolRet, out: Option<seq<Epub.ZipEntry>>)
    modifies opts
    ensures ToolOutcome(ret, out, opts.Current()) ==
      LoadMemorySpec(old(opts.Current()).(createEpub := true, outdir := true), buffer, book)
  {
    opts.createEpub := true;
    opts.outdir := true;
    ret, out := LoadMemory(opts, buffer, book);
  }

  /** The flags `ConvertMobiToEpub` runs with, on a fresh set of options. */
  function ConvertFlags(): Flags
  {
    Flags(true, false, false, true)
  }

  /** A buffer too short for a Palm database header is refused. */
  lemma ShortBufferRefused(buffer: seq<u8>, book: Book, f: Flags)
    requires |buffer| < Pdb.PALMDB_HEADER_LEN
    ensures LoadMemorySpec(f, buffer, book) == ToolOutcome(ToolError, None, f)
  {
  }

  /** A loadable book that reconstructs and whose archive is written
      without failure converts to exactly the planned EPUB. */
  lemma ConvertYieldsPlan(buffer: seq<u8>, book: Book)
    requires LoadRet(buffer, book) == Success && !book.isReplica
    requires book.rawml.Some? && book.zipFailsAt.None?
    ensures var r := LoadMemorySpec(ConvertFlags(), buffer, book);
      r.ret == ToolSuccess && r.out == Some(Epub.EpubPlan(book.rawml.value, book.meta)) &&
      r.out.value[0] == Epub.MimetypeEntry()
  {
    Epub.EpubPlanHead(book.rawml.value, book.meta);
  }

  /** A Print Replica book converts to nothing, yet the entry point reports
      SUCCESS, whatever the parts are. */
  lemma ConvertReplicaYieldsNothing(buffer: seq<u8>, book: Book)
    requires LoadRet(buffer, book) == Success && book.isReplica
    ensures LoadMemorySpec(ConvertFlags(), buffer, book) == ToolOutcome(ToolSuccess, None, Flags(false, false, false, true))
  {
  }

  /** The parts option suppresses the EPUB: with it on, no archive is
      produced, and nothing is dumped either. */
  lemma DumpPartsSuppressesEpub(f: Flags, buffer: seq<u8>, book: Book)
    requires f.dumpParts
    ensures LoadMemorySpec(f, buffer, book).out.None?
  {
  }

  /** The conversion reports SUCCESS exactly when the book loads and either
      is a Print Replica book or reconstructs and has its archive finished
      and the writer ended. */
  lemma ConvertSuccess(buffer: seq<u8>, book: Book)
    ensures var r := LoadMemorySpec(ConvertFlags(), buffer, book);
      r.ret == ToolSuccess <==>
        LoadRet(buffer, book) == Success &&
        (book.isReplica ||
         (book.rawml.Some? && (book.zipFailsAt.None? ||
                               book.zipFailsAt.value > |Epub.EpubPlan(book.rawml.value, book.meta)| + 2)))
  {
  }
}
