/** The parts of a reconstructed book that mobitool writes out
    (`MOBIRawml`, `MOBIPart`), the file-type table it names them by, and the
    fixed EPUB payloads (mobiconvert/mobitool.c). */
module Parts {
  import opened Common
  import opened Names

  /** The file types `mobi_get_filemeta_by_type` can report; the tool only
      tells the OPF package document apart from the rest. */
  datatype FileType = Opf | OtherType(code: nat)

  /** `MOBIFileMeta`: the type and the file-name extension of a part. */
  datatype FileMeta = FileMeta(fileType: FileType, extension: string)

  /** `MOBIPart`: the number the part is named by, its raw type code and its
      bytes (`size` is the length of `data`). */
  datatype Part = Part(uid: nat, partType: nat, data: seq<u8>)

  /** `MOBIRawml`: the three part lists, in list order (an empty list is a
      NULL head). */
  datatype Rawml = Rawml(markup: seq<Part>, flow: seq<Part>, resources: seq<Part>)

  /** `EPUB_MIMETYPE`. */
  const EPUB_MIMETYPE: string := "application/epub+zip"

  /** `EPUB_CONTAINER`: the OCF container document naming the package document. */
  const EPUB_CONTAINER: string :=
    "<?xml version=\"1.0\" encoding=\"UTF-8\"?>\n" +
    "<container version=\"1.0\" xmlns=\"urn:oasis:names:tc:opendocument:xmlns:container\">\n" +
    "  <rootfiles>\n" +
    "    <rootfile full-path=\"OEBPS/content.opf\" media-type=\"application/oebps-package+xml\"/>\n" +
    "  </rootfiles>\n" +
    "</container>"

  /** The flow list after its first part, the raw markup that the tool
      skips; a NULL list has nothing to skip. */
  function FlowTail(flow: seq<Part>): (r: seq<Part>)
    ensures |r| == Max(|flow| - 1, 0)
    ensures forall j :: 0 <= j < |r| ==> r[j] == flow[j + 1]
  {
    if flow == [] then [] else flow[1..]
  }

  /** The name `snprintf` writes for a numbered part into a FILENAME_MAX buffer. */
  function PartName(prefix: string, p: Part, meta: nat -> FileMeta): string
  {
    Truncated(NumberedName(prefix, p.uid, meta(p.partType).extension), FILENAME_MAX)
  }

  /** Whether the tool writes a resource at all: empty ones are skipped. */
  predicate Written(p: Part)
  {
    |p.data| > 0
  }

  /** The written resources, in list order. */
  function WrittenParts(ps: seq<Part>): (r: seq<Part>)
    ensures |r| <= |ps|
    decreases |ps|
  {
    if ps == [] then []
    else
      var rest := WrittenParts(ps[..|ps| - 1]);
      if Written(ps[|ps| - 1]) then rest + [ps[|ps| - 1]] else rest
  }

  /** The written resources are exactly the nonempty ones. */
  lemma {:induction false} WrittenPartsMembers(ps: seq<Part>)
    ensures forall p :: p in WrittenParts(ps) <==> p in ps && Written(p)
    decreases |ps|
  {
    if ps != [] {
      var front := ps[..|ps| - 1];
      WrittenPartsMembers(front);
      assert ps == front + [ps[|ps| - 1]];
    }
  }
}
