/** Choosing, checking and ordering the ZIP entries of a HAP for code signing. The zip crate
    itself is a parameter: a reader that lists an archive and a writer that lays one out. */
module ZipAlign {
  import opened Wrappers
  import opened ByteCodec
  import opened Names
  import opened Format

  const MAX_ENTRY_SIZE := 512 * 1024 * 1024
  const MAX_TOTAL_SIZE := 2 * 1024 * 1024 * 1024

  datatype CodeSignError =
    | FormatFailure(format: FormatError)
    | SizeLimit
    | ZipFailure(message: string)
    | CmsFailure(message: string)
    | ProfileFailure(message: string)
    | Alignment(name: Bytes)
    | RunnableCompression(name: Bytes)
    | Unsupported(name: Bytes)
    | EntryTooLarge(size: nat)
    | ArchiveTooLarge
    | SizeMismatch(name: Bytes)
    | InvalidStructure(message: string)

  datatype Compression = Stored | Deflated | OtherCompression

  /** An entry as the reader reports it: declared size, actual content, and the range of the
      file its stored data occupies. */
  datatype ZipFile = ZipFile(name: Bytes, isDirectory: bool, compression: Compression, size: nat,
                             content: Bytes, dataStart: nat, dataLength: nat)

  datatype Archive = Archive(files: seq<ZipFile>, comment: Bytes)

  /** One call on the writer. */
  datatype WriteRequest =
    WriteRequest(name: Bytes, isDirectory: bool, compression: Compression, alignment: nat, content: Bytes)

  type ZipReader = Bytes -> Result<Archive, string>
  type ZipWriter = (seq<WriteRequest>, Bytes) -> Result<Bytes, string>

  // ----- Classification -----

  const ABC: Bytes := [0x2E, 0x61, 0x62, 0x63]
  const AN: Bytes := [0x2E, 0x61, 0x6E]
  const LIBS: Bytes := [0x6C, 0x69, 0x62, 0x73, 0x2F]
  const HNP_DIRECTORY: Bytes := [0x68, 0x6E, 0x70, 0x2F]
  const HNP: Bytes := [0x2E, 0x68, 0x6E, 0x70]
  const PAGES_INFO: Bytes := [0x2E, 0x70, 0x61, 0x67, 0x65, 0x73, 0x2E, 0x69, 0x6E, 0x66, 0x6F]

  predicate IsRunnableName(name: Bytes) {
    EndsWith(name, ABC) || EndsWith(name, AN) || StartsWith(name, LIBS)
  }

  predicate IsNativeName(name: Bytes) {
    EndsWith(name, AN) || StartsWith(name, LIBS)
  }

  predicate IsNestedHnp(name: Bytes) {
    StartsWith(name, HNP_DIRECTORY) && EndsWith(name, HNP)
  }

  predicate Runnable(file: ZipFile) {
    !file.isDirectory && IsRunnableName(file.name)
  }

  function ClassifyRunnable(file: ZipFile): Result<bool, CodeSignError> {
    if !Runnable(file) then Ok(false)
    else if file.compression != Stored then Err(RunnableCompression(file.name))
    else Ok(true)
  }

  function CheckedUncompressedTotal(total: nat, size: nat): Result<nat, CodeSignError> {
    if size > MAX_ENTRY_SIZE then Err(EntryTooLarge(size))
    else if total + size > MAX_TOTAL_SIZE then Err(ArchiveTooLarge)
    else Ok(total + size)
  }

  /** The checks every pass over an archive makes, in order, on one more entry. */
  function AdmitOne(total: nat, file: ZipFile): Result<nat, CodeSignError> {
    if IsNestedHnp(file.name) then Err(Unsupported(file.name))
    else
      var total :- CheckedUncompressedTotal(total, file.size);
      var _ :- ClassifyRunnable(file);
      Ok(total)
  }

  /** The total size of the entries if all of them pass, else the first failure. */
  function Admit(files: seq<ZipFile>): Result<nat, CodeSignError> {
    if files == [] then Ok(0)
    else
      var total :- Admit(files[..|files| - 1]);
      AdmitOne(total, files[|files| - 1])
  }

  /** A failing entry fails every longer pass in the same way. */
  lemma {:induction false} AdmitStops(files: seq<ZipFile>, i: nat)
    requires i <= |files| && Admit(files[..i]).Err?
    ensures Admit(files) == Admit(files[..i])
    decreases |files|
  {
    hide AdmitOne;
    if i < |files| {
      assert files[..|files| - 1][..i] == files[..i];
      AdmitStops(files[..|files| - 1], i);
    } else {
      assert files[..i] == files;
    }
  }

  function TotalSize(files: seq<ZipFile>): nat {
    if files == [] then 0 else TotalSize(files[..|files| - 1]) + files[|files| - 1].size
  }

  predicate Admissible(file: ZipFile) {
    !IsNestedHnp(file.name) && file.size <= MAX_ENTRY_SIZE && (Runnable(file) ==> file.compression == Stored)
  }

  /** A pass succeeds exactly when every entry is admissible and the total is in budget,
      whatever the order of the entries. */
  lemma {:induction false} AdmitExactly(files: seq<ZipFile>)
    ensures Admit(files).Ok? <==> (forall f :: f in files ==> Admissible(f)) && TotalSize(files) <= MAX_TOTAL_SIZE
    ensures Admit(files).Ok? ==> Admit(files).value == TotalSize(files)
    decreases |files|
  {
    hide IsRunnableName, IsNativeName, IsNestedHnp;
    if files == [] {
    } else {
      var init, last := files[..|files| - 1], files[|files| - 1];
      AdmitExactly(init);
      assert files == init + [last];
      assert TotalSize(files) == TotalSize(init) + last.size;
      assert last in files;
      if !(forall f :: f in init ==> Admissible(f)) {
        var f :| f in init && !Admissible(f);
        assert f in files;
      }
    }
  }

  /** `has_runnable_files`. */
  method HasRunnableFiles(read: ZipReader, input: Bytes) returns (r: Result<bool, CodeSignError>)
    ensures r == RunnableFilesOf(read, input)
  {
    hide IsRunnableName, IsNativeName, IsNestedHnp, ClassifyRunnable, CheckedUncompressedTotal;
    var listing := read(input);
    if listing.Err? {
      return Err(ZipFailure(listing.error));
    }
    var files := listing.value.files;
    var total := 0;
    var hasRunnable := false;
    for index := 0 to |files|
      invariant Admit(files[..index]) == Ok(total)
      invariant hasRunnable <==> exists f :: f in files[..index] && Runnable(f)
    {
      AdmitStep(files, index);
      AdmitStepStops(files, index);
      var admitted := AdmitOne(total, files[index]);
      if admitted.Err? {
        return Err(admitted.error);
      }
      total := admitted.value;
      hasRunnable := hasRunnable || Runnable(files[index]);
      assert files[..index + 1] == files[..index] + [files[index]];
    }
    assert files[..|files|] == files;
    return Ok(hasRunnable);
  }

  lemma AdmitStep(files: seq<ZipFile>, index: nat)
    requires index < |files| && Admit(files[..index]).Ok?
    ensures Admit(files[..index + 1]) == AdmitOne(Admit(files[..index]).value, files[index])
  {
    hide AdmitOne;
    assert files[..index + 1][..index] == files[..index];
  }

  lemma AdmitStepStops(files: seq<ZipFile>, index: nat)
    requires index < |files|
    ensures Admit(files[..index + 1]).Err? ==> Admit(files) == Admit(files[..index + 1])
  {
    hide AdmitOne, Admit;
    if Admit(files[..index + 1]).Err? {
      AdmitStops(files, index + 1);
    }
  }

  function RunnableFilesOf(read: ZipReader, input: Bytes): Result<bool, CodeSignError> {
    var archive :- read(input).MapErr(e => ZipFailure(e));
    var _ :- Admit(archive.files);
    Ok(exists f :: f in archive.files && Runnable(f))
  }

  // ----- Order and alignment -----

  function Rank(file: ZipFile): nat {
    if Runnable(file) then 0 else if file.compression == Stored then 1 else 2
  }

  predicate Before(a: ZipFile, b: ZipFile) {
    Rank(a) < Rank(b) || (Rank(a) == Rank(b) && Less(a.name, b.name))
  }

  function InsertSorted(files: seq<ZipFile>, f: ZipFile): (r: seq<ZipFile>)
    ensures multiset(r) == multiset(files) + multiset{f}
  {
    if files == [] then [f]
    else
      var init, last := files[..|files| - 1], files[|files| - 1];
      assert files == init + [last];
      if Before(f, last) then InsertSorted(init, f) + [last] else files + [f]
  }

  /** The stable sort by rank and name. */
  function Sorted(files: seq<ZipFile>): (r: seq<ZipFile>)
    ensures multiset(r) == multiset(files)
  {
    if files == [] then []
    else
      assert files == files[..|files| - 1] + [files[|files| - 1]];
      InsertSorted(Sorted(files[..|files| - 1]), files[|files| - 1])
  }

  predicate InOrder(files: seq<ZipFile>) {
    forall i, j :: 0 <= i < j < |files| ==> !Before(files[j], files[i])
  }

  lemma NotBeforeTransitive(a: ZipFile, b: ZipFile, c: ZipFile)
    requires !Before(b, a) && !Before(c, b)
    ensures !Before(c, a)
  {
    LessTotal(a.name, b.name);
    LessTotal(b.name, c.name);
    LessTotal(a.name, c.name);
    if Less(a.name, b.name) && Less(b.name, c.name) {
      LessTransitive(a.name, b.name, c.name);
    }
    if Less(c.name, a.name) && Less(a.name, b.name) {
      LessTransitive(c.name, a.name, b.name);
    }
  }

  lemma {:induction false} InsertKeepsOrder(files: seq<ZipFile>, f: ZipFile)
    requires InOrder(files)
    ensures InOrder(InsertSorted(files, f))
    decreases |files|
  {
    hide Before;
    if files != [] {
      var init, last := files[..|files| - 1], files[|files| - 1];
      if Before(f, last) {
        InsertKeepsOrder(init, f);
        InsertedBelow(files, f);
      } else {
        forall i | 0 <= i < |files|
          ensures !Before(f, files[i])
        {
          if i < |files| - 1 {
            NotBeforeTransitive(files[i], last, f);
          }
        }
      }
    }
  }

  /** What is inserted in front of the last file stays in order with it. */
  lemma InsertedBelow(files: seq<ZipFile>, f: ZipFile)
    requires InOrder(files) && files != [] && Before(f, files[|files| - 1])
    ensures
      var r := InsertSorted(files[..|files| - 1], f);
      forall i {:trigger r[i]} :: 0 <= i < |r| ==> !Before(files[|files| - 1], r[i])
  {
    var init, last := files[..|files| - 1], files[|files| - 1];
    var r := InsertSorted(init, f);
    LessTotal(f.name, last.name);
    assert !Before(last, f);
    hide Before;
    forall i {:trigger r[i]} | 0 <= i < |r|
      ensures !Before(last, r[i])
    {
      assert r[i] in multiset(r);
      assert r[i] in multiset(init) + multiset{f};
      assert r[i] == f || r[i] in init;
    }
  }

  lemma {:induction false} SortedInOrder(files: seq<ZipFile>)
    ensures InOrder(Sorted(files))
    decreases |files|
  {
    if files == [] {
    } else {
      SortedInOrder(files[..|files| - 1]);
      InsertKeepsOrder(Sorted(files[..|files| - 1]), files[|files| - 1]);
    }
  }

  function WithoutPagesInfo(files: seq<ZipFile>): (r: seq<ZipFile>)
    ensures forall f :: f in r ==> f in files && f.name != PAGES_INFO
    ensures forall f :: f in files && f.name != PAGES_INFO ==> f in r
  {
    if files == [] then []
    else
      assert files == files[..|files| - 1] + [files[|files| - 1]];
      var rest := WithoutPagesInfo(files[..|files| - 1]);
      if files[|files| - 1].name == PAGES_INFO then rest else rest + [files[|files| - 1]]
  }

  /** Runnable entries and the first other entry start a page; further stored entries are
      4-byte aligned. */
  function AlignmentOf(plans: seq<ZipFile>, i: nat): nat
    requires i < |plans|
  {
    if Runnable(plans[i]) then PAGE
    else if forall k :: 0 <= k < i ==> Runnable(plans[k]) then PAGE
    else if plans[i].compression == Stored then 4
    else 1
  }

  function RequestOf(plans: seq<ZipFile>, i: nat): WriteRequest
    requires i < |plans|
  {
    var f := plans[i];
    WriteRequest(f.name, f.isDirectory, f.compression, AlignmentOf(plans, i), if f.isDirectory then [] else f.content)
  }

  function RequestsOf(plans: seq<ZipFile>): (rs: seq<WriteRequest>)
    ensures |rs| == |plans|
    ensures forall i {:trigger rs[i]} :: 0 <= i < |rs| ==> rs[i] == RequestOf(plans, i)
  {
    seq(|plans|, i requires 0 <= i < |plans| => RequestOf(plans, i))
  }

  /** Copying stops one byte behind the declared size, so it notices any other length. */
  predicate Copies(file: ZipFile) {
    file.isDirectory || |file.content| == file.size
  }

  /** The first entry whose content does not have the declared size. */
  function FirstMismatch(plans: seq<ZipFile>): (r: Option<Bytes>)
    ensures r.None? <==> forall f :: f in plans ==> Copies(f)
  {
    if plans == [] then None
    else
      assert plans == plans[..|plans| - 1] + [plans[|plans| - 1]];
      var rest := FirstMismatch(plans[..|plans| - 1]);
      if rest.Some? then rest
      else if Copies(plans[|plans| - 1]) then None
      else Some(plans[|plans| - 1].name)
  }

  function AlignedZip(read: ZipReader, write: ZipWriter, input: Bytes): Result<Bytes, CodeSignError> {
    var archive :- read(input).MapErr(e => ZipFailure(e));
    var kept := WithoutPagesInfo(archive.files);
    var _ :- Admit(kept);
    var plans := Sorted(kept);
    var mismatch := FirstMismatch(plans);
    if mismatch.Some? then Err(SizeMismatch(mismatch.value))
    else write(RequestsOf(plans), archive.comment).MapErr(e => ZipFailure(e))
  }

  /** The planning loop: `.pages.info` entries are dropped, all others checked. */
  method PlanEntries(files: seq<ZipFile>) returns (r: Result<seq<ZipFile>, CodeSignError>)
    ensures r == var kept := WithoutPagesInfo(files);
                 if Admit(kept).Ok? then Ok(kept) else Err(Admit(kept).error)
  {
    hide AdmitOne;
    var plans: seq<ZipFile> := [];
    var total := 0;
    for index := 0 to |files|
      invariant plans == WithoutPagesInfo(files[..index])
      invariant Admit(plans) == Ok(total)
    {
      assert files[..index + 1][..index] == files[..index];
      if files[index].name != PAGES_INFO {
        KeptPrefix(files, index + 1);
        var admitted := AdmitOne(total, files[index]);
        ghost var kept := plans + [files[index]];
        assert kept == WithoutPagesInfo(files[..index + 1]) && kept[..|plans|] == plans;
        assert Admit(kept) == admitted;
        if admitted.Err? {
          assert WithoutPagesInfo(files)[..|kept|] == kept;
          AdmitStops(WithoutPagesInfo(files), |kept|);
          return Err(admitted.error);
        }
        total := admitted.value;
        plans := plans + [files[index]];
      }
    }
    assert files[..|files|] == files;
    return Ok(plans);
  }

  /** The writing loop, with its flag for the first entry that is not runnable. */
  method RequestEntries(plans: seq<ZipFile>) returns (r: Result<seq<WriteRequest>, CodeSignError>)
    ensures r == if FirstMismatch(plans).None? then Ok(RequestsOf(plans))
                 else Err(SizeMismatch(FirstMismatch(plans).value))
  {
    hide Runnable, FirstMismatch;
    var requests: seq<WriteRequest> := [];
    var firstResource := true;
    NoMismatchYet(plans, 0);
    for i := 0 to |plans|
      invariant firstResource <==> forall k :: 0 <= k < i ==> Runnable(plans[k])
      invariant requests == RequestsOf(plans)[..i]
      invariant FirstMismatch(plans[..i]) == None
    {
      NoMismatchYet(plans, i);
      var plan := plans[i];
      var alignment := 1;
      if Runnable(plan) {
        alignment := PAGE;
      } else if firstResource {
        firstResource := false;
        alignment := PAGE;
      } else if plan.compression == Stored {
        alignment := 4;
      }
      if !plan.isDirectory && |plan.content| != plan.size {
        MismatchStops(plans, i + 1);
        return Err(SizeMismatch(plan.name));
      }
      requests := requests + [WriteRequest(plan.name, plan.isDirectory, plan.compression, alignment,
                                           if plan.isDirectory then [] else plan.content)];
      assert RequestsOf(plans)[i] == requests[i];
    }
    assert plans[..|plans|] == plans;
    assert requests == RequestsOf(plans);
    return Ok(requests);
  }

  /** `align_zip_for_code_sign`. */
  method AlignZipForCodeSign(read: ZipReader, write: ZipWriter, input: Bytes) returns (r: Result<Bytes, CodeSignError>)
    ensures r == AlignedZip(read, write, input)
  {
    hide Admit, WithoutPagesInfo, Sorted, FirstMismatch, RequestsOf;
    var listing := read(input);
    if listing.Err? {
      return Err(ZipFailure(listing.error));
    }
    var planned := PlanEntries(listing.value.files);
    if planned.Err? {
      return Err(planned.error);
    }
    var requests := RequestEntries(Sorted(planned.value));
    if requests.Err? {
      return Err(requests.error);
    }
    var written := write(requests.value, listing.value.comment);
    return written.MapErr(e => ZipFailure(e));
  }

  lemma {:induction false} KeptPrefix(files: seq<ZipFile>, i: nat)
    requires i <= |files|
    ensures WithoutPagesInfo(files[..i]) <= WithoutPagesInfo(files)
    decreases |files|
  {
    if i == |files| {
      assert files[..i] == files;
    } else {
      assert files[..|files| - 1][..i] == files[..i];
      KeptPrefix(files[..|files| - 1], i);
    }
  }

  /** One more entry is a mismatch exactly if its copy has another length. */
  lemma NoMismatchYet(plans: seq<ZipFile>, i: nat)
    requires i <= |plans|
    ensures i == 0 ==> FirstMismatch(plans[..i]) == None
    ensures i < |plans| && FirstMismatch(plans[..i]) == None ==>
              FirstMismatch(plans[..i + 1]) == if Copies(plans[i]) then None else Some(plans[i].name)
  {
    if i < |plans| {
      assert plans[..i + 1][..i] == plans[..i];
    }
  }

  lemma {:induction false} MismatchStops(plans: seq<ZipFile>, i: nat)
    requires i <= |plans| && FirstMismatch(plans[..i]).Some?
    ensures FirstMismatch(plans) == FirstMismatch(plans[..i])
    decreases |plans|
  {
    if i == |plans| {
      assert plans[..i] == plans;
    } else {
      assert plans[..|plans| - 1][..i] == plans[..i];
      MismatchStops(plans[..|plans| - 1], i);
    }
  }

  // ----- Collecting the inputs of the property -----

  /** The length of the hashed prefix (unset before the first other entry) and the native files. */
  datatype Scan = Scan(total: nat, hapDataSize: Option<nat>, natives: seq<ZipFile>)

  function ScanOne(scan: Scan, file: ZipFile): Result<Scan, CodeSignError> {
    var total :- AdmitOne(scan.total, file);
    if scan.hapDataSize.None? && file.dataStart % PAGE != 0 then Err(Alignment(file.name))
    else
      Ok(Scan(total,
              if scan.hapDataSize.None? && !Runnable(file) then Some(file.dataStart) else scan.hapDataSize,
              if !file.isDirectory && IsNativeName(file.name) then scan.natives + [file] else scan.natives))
  }

  function ScanAll(files: seq<ZipFile>): Result<Scan, CodeSignError> {
    if files == [] then Ok(Scan(0, None, []))
    else
      var scan :- ScanAll(files[..|files| - 1]);
      ScanOne(scan, files[|files| - 1])
  }

  lemma {:induction false} ScanStops(files: seq<ZipFile>, i: nat)
    requires i <= |files| && ScanAll(files[..i]).Err?
    ensures ScanAll(files) == ScanAll(files[..i])
    decreases |files|
  {
    hide ScanOne;
    if i < |files| {
      assert files[..|files| - 1][..i] == files[..i];
      ScanStops(files[..|files| - 1], i);
    } else {
      assert files[..i] == files;
    }
  }

  /** The native files, in order. */
  function NativeFiles(files: seq<ZipFile>): (r: seq<ZipFile>)
    ensures forall f :: f in r <==> f in files && !f.isDirectory && IsNativeName(f.name)
  {
    if files == [] then []
    else
      assert files == files[..|files| - 1] + [files[|files| - 1]];
      var rest, f := NativeFiles(files[..|files| - 1]), files[|files| - 1];
      if !f.isDirectory && IsNativeName(f.name) then rest + [f] else rest
  }

  lemma {:induction false} ScanNatives(files: seq<ZipFile>)
    requires ScanAll(files).Ok?
    ensures ScanAll(files).value.natives == NativeFiles(files)
    decreases |files|
  {
    hide AdmitOne, IsNativeName, Runnable;
    if files != [] {
      ScanNatives(files[..|files| - 1]);
    }
  }

  datatype CodeSignInputs = CodeSignInputs(hapDataSize: nat, natives: seq<ZipFile>)

  function InputsOf(read: ZipReader, aligned: Bytes): Result<CodeSignInputs, CodeSignError> {
    var layout :- LayoutOf(aligned).MapErr(e => FormatFailure(e));
    if layout.signingBlock.Some? then Err(InvalidStructure("aligned HAP still contains a signing block"))
    else
      var archive :- read(aligned).MapErr(e => ZipFailure(e));
      var scan :- ScanAll(archive.files);
      Ok(CodeSignInputs(if scan.hapDataSize.Some? then scan.hapDataSize.value else 0, scan.natives))
  }

  method CollectCodeSignInputs(read: ZipReader, aligned: Bytes) returns (r: Result<CodeSignInputs, CodeSignError>)
    ensures r == InputsOf(read, aligned)
  {
    hide IsRunnableName, IsNativeName, IsNestedHnp, AdmitOne;
    var layout := ParseHap(aligned);
    if layout.Err? {
      return Err(FormatFailure(layout.error));
    }
    if layout.value.signingBlock.Some? {
      return Err(InvalidStructure("aligned HAP still contains a signing block"));
    }
    var listing := read(aligned);
    if listing.Err? {
      return Err(ZipFailure(listing.error));
    }
    var files := listing.value.files;
    var hapDataSize: Option<nat> := None;
    var natives: seq<ZipFile> := [];
    var total := 0;
    for index := 0 to |files|
      invariant ScanAll(files[..index]) == Ok(Scan(total, hapDataSize, natives))
    {
      var file := files[index];
      assert files[..index + 1][..index] == files[..index];
      var next := ScanOne(Scan(total, hapDataSize, natives), file);
      assert ScanAll(files[..index + 1]) == next;
      var admitted := AdmitOne(total, file);
      if admitted.Err? {
        ScanStops(files, index + 1);
        return Err(admitted.error);
      }
      total := admitted.value;
      if hapDataSize.None? {
        if file.dataStart % PAGE != 0 {
          ScanStops(files, index + 1);
          return Err(Alignment(file.name));
        }
        if !Runnable(file) {
          hapDataSize := Some(file.dataStart);
        }
      }
      if !file.isDirectory && IsNativeName(file.name) {
        natives := natives + [file];
      }
    }
    assert files[..|files|] == files;
    return Ok(CodeSignInputs(if hapDataSize.Some? then hapDataSize.value else 0, natives));
  }

  // ----- The hand-off between the two -----

  /** The archive ends with a record and this comment. */
  predicate RecordWritten(out: Bytes, comment: Bytes) {
    && EOCD_MIN_SIZE + |comment| <= |out| && EocdAt(out, |out| - EOCD_MIN_SIZE - |comment|)
    && out[|out| - |comment|..] == comment
  }

  /** Where that record says the directory starts. */
  function DirectoryStart(out: Bytes, comment: Bytes): nat
    requires EOCD_MIN_SIZE + |comment| <= |out|
  {
    Field(out, |out| - EOCD_MIN_SIZE - |comment| + 16, 4)
  }

  /** The archive lists what was requested, in order, with data where it was asked to be; the data of the
      last entry ends where the directory starts. */
  predicate WrittenAs(out: Bytes, archive: Archive, requests: seq<WriteRequest>, comment: Bytes) {
    && RecordWritten(out, comment)
    && |archive.files| == |requests|
    && (forall i {:trigger archive.files[i]} :: 0 <= i < |requests| ==>
          var f, q := archive.files[i], requests[i];
          && f.name == q.name && f.isDirectory == q.isDirectory && (!f.isDirectory ==> f.compression == q.compression)
          && f.content == q.content && f.size == |q.content|
          && (q.alignment > 0 ==> f.dataStart % q.alignment == 0)
          && f.dataStart >= 30
          && (f.compression == Stored ==> f.dataLength == f.size && At(out, f.dataStart, f.content))
          && f.dataStart + f.dataLength <= DirectoryStart(out, comment))
    && (forall i, j {:trigger archive.files[i], archive.files[j]} :: 0 <= i < j < |requests| ==>
          archive.files[i].dataStart + archive.files[i].dataLength <= archive.files[j].dataStart)
    && (requests != [] ==>
          var last := archive.files[|requests| - 1];
          last.dataStart + last.dataLength == DirectoryStart(out, comment))
  }

  /** What is asked of the zip crate, for the one rewriting at hand: if it succeeds, its archive reads
      back as requested, in order, behind 30-byte local headers, honouring alignments. What the parser of
      the signing block makes of the archive is not part of it. */
  predicate HonoursRewrite(read: ZipReader, write: ZipWriter, input: Bytes) {
    read(input).Ok? ==>
      var archive := read(input).value;
      WriterHonours(read, write, RequestsOf(Sorted(WithoutPagesInfo(archive.files))), archive.comment)
  }

  predicate WriterHonours(read: ZipReader, write: ZipWriter, requests: seq<WriteRequest>, comment: Bytes) {
    write(requests, comment).Ok? ==>
      var out := write(requests, comment).value;
      read(out).Ok? && WrittenAs(out, read(out).value, requests, comment)
  }

  /** The file is listed under the plan's name, kind, method and content. */
  predicate SamePayload(f: ZipFile, plan: ZipFile) {
    && f.name == plan.name && f.isDirectory == plan.isDirectory
    && (!f.isDirectory ==> f.compression == plan.compression && f.content == plan.content)
  }

  predicate Represents(files: seq<ZipFile>, plans: seq<ZipFile>) {
    && |files| == |plans|
    && forall i {:trigger files[i]} :: 0 <= i < |files| ==> SamePayload(files[i], plans[i])
  }

  lemma {:induction false} TotalSizeOfParts(a: seq<ZipFile>, b: seq<ZipFile>)
    ensures TotalSize(a + b) == TotalSize(a) + TotalSize(b)
    decreases |b|
  {
    if b == [] {
      assert a + b == a;
    } else {
      assert (a + b)[..|a + b| - 1] == a + b[..|b| - 1];
      TotalSizeOfParts(a, b[..|b| - 1]);
    }
  }

  lemma {:induction false} InsertTotal(files: seq<ZipFile>, f: ZipFile)
    ensures TotalSize(InsertSorted(files, f)) == TotalSize(files) + f.size
    decreases |files|
  {
    if files == [] {
    } else {
      var init, last := files[..|files| - 1], files[|files| - 1];
      InsertTotal(init, f);
      TotalSizeOfParts(InsertSorted(init, f), [last]);
      TotalSizeOfParts(files, [f]);
      assert [last][..0] == [] && [f][..0] == [];
    }
  }

  lemma {:induction false} SortedTotal(files: seq<ZipFile>)
    ensures TotalSize(Sorted(files)) == TotalSize(files)
    decreases |files|
  {
    if files == [] {
    } else {
      SortedTotal(files[..|files| - 1]);
      InsertTotal(Sorted(files[..|files| - 1]), files[|files| - 1]);
    }
  }

  lemma {:induction false} TotalSizeBelow(files: seq<ZipFile>, plans: seq<ZipFile>)
    requires |files| == |plans|
    requires forall i {:trigger files[i]} :: 0 <= i < |files| ==> files[i].size <= plans[i].size
    ensures TotalSize(files) <= TotalSize(plans)
    decreases |files|
  {
    if files != [] {
      TotalSizeBelow(files[..|files| - 1], plans[..|plans| - 1]);
    }
  }

  /** The aligned archive lists a permutation of the kept entries, ordered by rank and name. */
  lemma AlignedEntries(read: ZipReader, write: ZipWriter, input: Bytes, out: Bytes)
    returns (plans: seq<ZipFile>)
    requires HonoursRewrite(read, write, input) && AlignedZip(read, write, input) == Ok(out)
    ensures read(input).Ok? && read(out).Ok?
    ensures multiset(plans) == multiset(WithoutPagesInfo(read(input).value.files)) && InOrder(plans)
    ensures Represents(read(out).value.files, plans)
    ensures plans == Sorted(WithoutPagesInfo(read(input).value.files))
    ensures WrittenAs(out, read(out).value, RequestsOf(plans), read(input).value.comment)
    ensures Admit(read(out).value.files).Ok?
  {
    hide IsRunnableName, IsNativeName, IsNestedHnp, Before, Admit;
    hide Sorted, WithoutPagesInfo, LayoutOf, Less;
    var archive := read(input).value;
    var kept := WithoutPagesInfo(archive.files);
    plans := Sorted(kept);
    SortedInOrder(kept);
    var files := read(out).value.files;
    AdmitExactly(kept);
    SortedTotal(kept);
    forall i | 0 <= i < |files|
      ensures SamePayload(files[i], plans[i]) && files[i].size <= plans[i].size && Admissible(files[i])
    {
      assert RequestsOf(plans)[i] == RequestOf(plans, i);
      assert plans[i] in plans;
      assert plans[i] in multiset(plans);
      assert plans[i] in kept;
    }
    TotalSizeBelow(files, plans);
    AdmitExactly(files);
  }

  /** An entry the rewriting keeps that is not runnable. */
  predicate HasOther(files: seq<ZipFile>) {
    exists g :: g in files && g.name != PAGES_INFO && !Runnable(g)
  }

  /** The hand-off: collecting from an aligned archive never finds an alignment error or an entry that
      is not admissible; it succeeds exactly if the layout is found and shows no signing block. If the
      input has an entry besides `.pages.info` that is not runnable, the hashed prefix ends at a
      page-aligned start in front of the directory and covers every runnable entry; if it has none, the
      prefix is empty and covers no runnable entry. */
  lemma AlignedInputsCollect(read: ZipReader, write: ZipWriter, input: Bytes, out: Bytes)
    requires HonoursRewrite(read, write, input) && AlignedZip(read, write, input) == Ok(out)
    ensures read(input).Ok? && read(out).Ok? && RecordWritten(out, read(input).value.comment)
    ensures InputsOf(read, out).Ok? <==> LayoutOf(out).Ok? && LayoutOf(out).value.signingBlock.None?
    ensures InputsOf(read, out).Err? ==>
              InputsOf(read, out).error.FormatFailure? || InputsOf(read, out).error.InvalidStructure?
    ensures InputsOf(read, out).Ok? ==>
      var files := read(out).value.files;
      var size := InputsOf(read, out).value.hapDataSize;
      && size % PAGE == 0
      && size <= DirectoryStart(out, read(input).value.comment)
      && (forall f :: f in files && Runnable(f) ==>
            (f.dataStart + f.size <= size <==> HasOther(read(input).value.files)))
      && (!HasOther(read(input).value.files) ==> size == 0)
  {
    hide LayoutOf, Runnable, Admit, ScanAll, AlignedZip, HonoursRewrite, InOrder, WithoutPagesInfo, RequestsOf,
         HasOther, Represents;
    var plans := AlignedEntries(read, write, input, out);
    var files, comment := read(out).value.files, read(input).value.comment;
    var first := FirstOther(out, read(out).value, plans, comment);
    ScanAligned(files, first, |files|);
    assert files[..|files|] == files;
    RunnableCovered(out, read(out).value, plans, comment, first);
    OtherIsWritten(read(input).value.files, plans, files);
    if first < |files| {
      assert files[first] in files;
    }
  }

  /** A 16-byte end in front of the 4-byte version of a trailer. */
  predicate EndsLikeBlock(data: Bytes) {
    |data| >= 20 && data[|data| - 20..|data| - 4] in [MAGIC_V3, MAGIC_V2]
  }

  /** The record announces a directory that reaches up to it, as all but ZIP64 archives do. */
  predicate DirectoryComplete(out: Bytes, comment: Bytes)
    requires EOCD_MIN_SIZE + |comment| <= |out|
  {
    var e := |out| - EOCD_MIN_SIZE - |comment|;
    DirectoryStart(out, comment) + Field(out, e + 12, 4) == e
  }

  /** Collecting fails exactly on archives whose bytes in front of the directory end like a signing block. */
  lemma CollectsExactly(read: ZipReader, write: ZipWriter, input: Bytes, out: Bytes)
    requires HonoursRewrite(read, write, input) && AlignedZip(read, write, input) == Ok(out)
    requires read(input).Ok? && OwnRecord(out, read(input).value.comment)
    requires DirectoryComplete(out, read(input).value.comment)
    ensures
      var start := DirectoryStart(out, read(input).value.comment);
      && start <= |out|
      && (InputsOf(read, out).Ok? <==> start < SIGNING_TRAILER_SIZE || !EndsLikeBlock(out[..start]))
  {
    hide InputsOf, AlignedZip, HonoursRewrite, FromLittleEndian;
    AlignedInputsCollect(read, write, input, out);
    var start := DirectoryStart(out, read(input).value.comment);
    if start >= SIGNING_TRAILER_SIZE {
      assert out[..start][start - 20..start - 4] == out[start - 20..start - 4];
    }
  }

  /** In terms of the input: if the entry that comes last after sorting is stored and at least 20 bytes
      long, its content decides. */
  lemma LastContentDecides(read: ZipReader, write: ZipWriter, input: Bytes, out: Bytes)
    requires HonoursRewrite(read, write, input) && AlignedZip(read, write, input) == Ok(out)
    requires read(input).Ok? && OwnRecord(out, read(input).value.comment)
    requires DirectoryComplete(out, read(input).value.comment)
    requires
      var plans := Sorted(WithoutPagesInfo(read(input).value.files));
      plans != [] &&
      var last := plans[|plans| - 1];
      !last.isDirectory && last.compression == Stored && |last.content| >= 20
    ensures
      var plans := Sorted(WithoutPagesInfo(read(input).value.files));
      InputsOf(read, out).Ok? <==> !EndsLikeBlock(plans[|plans| - 1].content)
  {
    hide InputsOf, AlignedZip, HonoursRewrite, FromLittleEndian, Sorted, WithoutPagesInfo, OwnRecord, DirectoryComplete,
         RequestsOf, InOrder, DirectoryStart;
    CollectsExactly(read, write, input, out);
    var plans := AlignedEntries(read, write, input, out);
    LastContentStands(out, read(out).value, plans, read(input).value.comment);
  }

  /** The content of a stored last entry is what stands in front of the directory. */
  lemma LastContentStands(out: Bytes, archive: Archive, plans: seq<ZipFile>, comment: Bytes)
    requires plans != [] && Represents(archive.files, plans) && WrittenAs(out, archive, RequestsOf(plans), comment)
    requires var last := plans[|plans| - 1]; !last.isDirectory && last.compression == Stored && |last.content| >= 20
    ensures
      var start := DirectoryStart(out, comment);
      && SIGNING_TRAILER_SIZE <= start <= |out|
      && (EndsLikeBlock(out[..start]) <==> EndsLikeBlock(plans[|plans| - 1].content))
  {
    hide EocdAt, FromLittleEndian, RequestsOf;
    var start := DirectoryStart(out, comment);
    var f := archive.files[|plans| - 1];
    assert SamePayload(f, plans[|plans| - 1]);
    SameEnd(out, start - |f.content|, start);
  }

  lemma SameEnd(data: Bytes, a: nat, b: nat)
    requires a + 20 <= b <= |data|
    ensures EndsLikeBlock(data[..b]) <==> EndsLikeBlock(data[a..b])
  {
    assert data[..b][b - 20..b - 4] == data[a..b][b - a - 20..b - a - 4];
  }

  /** The input has another kept entry exactly if the output lists one. */
  lemma OtherIsWritten(input: seq<ZipFile>, plans: seq<ZipFile>, files: seq<ZipFile>)
    requires multiset(plans) == multiset(WithoutPagesInfo(input)) && Represents(files, plans)
    ensures HasOther(input) <==> exists i :: 0 <= i < |files| && !Runnable(files[i])
  {
    hide IsRunnableName, WithoutPagesInfo;
    var kept := WithoutPagesInfo(input);
    assert forall i :: 0 <= i < |files| ==> (Runnable(files[i]) <==> Runnable(plans[i]));
    if HasOther(input) {
      var g :| g in input && g.name != PAGES_INFO && !Runnable(g);
      assert g in multiset(kept);
      assert g in multiset(plans);
      var i :| 0 <= i < |plans| && plans[i] == g;
      assert !Runnable(files[i]);
    }
    if i :| 0 <= i < |files| && !Runnable(files[i]) {
      assert plans[i] in multiset(plans);
      assert plans[i] in multiset(kept);
      assert plans[i] in input && plans[i].name != PAGES_INFO;
    }
  }

  /** Every native file of the input is listed in the output, with its name and content. */
  lemma NativeIsWritten(read: ZipReader, write: ZipWriter, input: Bytes, out: Bytes, f: ZipFile) returns (g: ZipFile)
    requires HonoursRewrite(read, write, input) && AlignedZip(read, write, input) == Ok(out)
    requires read(input).Ok? && f in read(input).value.files && !f.isDirectory && IsNativeName(f.name)
    ensures read(out).Ok? && g in NativeFiles(read(out).value.files)
    ensures g.name == f.name && g.content == f.content
  {
    hide LayoutOf, Runnable, Admit, AlignedZip, HonoursRewrite, InOrder, WithoutPagesInfo, RequestsOf, IsNativeName,
         NativeFiles, WrittenAs;
    var plans := AlignedEntries(read, write, input, out);
    PagesInfoIsNotNative();
    assert f in multiset(WithoutPagesInfo(read(input).value.files));
    assert f in multiset(plans);
    var i :| 0 <= i < |plans| && plans[i] == f;
    g := read(out).value.files[i];
    assert SamePayload(g, plans[i]);
    assert g in read(out).value.files;
  }

  lemma PagesInfoIsNotNative()
    ensures !IsNativeName(PAGES_INFO)
  {
    assert PAGES_INFO[0] != LIBS[0];
    assert PAGES_INFO[|PAGES_INFO| - 3..][2] != AN[2];
  }

  /** Runnable data ends before the first other entry starts, and nothing starts at byte 0. */
  lemma RunnableCovered(out: Bytes, archive: Archive, plans: seq<ZipFile>, comment: Bytes, first: nat)
    requires WrittenAs(out, archive, RequestsOf(plans), comment)
    requires Admit(archive.files).Ok? && PageAlignedUpTo(archive.files, first)
    ensures forall f :: f in archive.files && Runnable(f) ==>
              && f.dataStart + f.size > 0
              && (first < |archive.files| ==> f.dataStart + f.size <= archive.files[first].dataStart)
    ensures first < |archive.files| ==> archive.files[first].dataStart <= DirectoryStart(out, comment)
  {
    hide IsRunnableName, IsNestedHnp, RequestsOf;
    AdmitExactly(archive.files);
    forall f | f in archive.files && Runnable(f)
      ensures f.dataStart + f.size > 0
      ensures first < |archive.files| ==> f.dataStart + f.size <= archive.files[first].dataStart
    {
      var k :| 0 <= k < |archive.files| && archive.files[k] == f;
      assert Admissible(f);
    }
  }

  /** Index of the first entry that is not runnable. */
  lemma FirstOther(out: Bytes, archive: Archive, plans: seq<ZipFile>, comment: Bytes) returns (first: nat)
    requires Represents(archive.files, plans) && InOrder(plans)
    requires WrittenAs(out, archive, RequestsOf(plans), comment)
    ensures PageAlignedUpTo(archive.files, first)
  {
    hide IsRunnableName, Less;
    var files := archive.files;
    first := 0;
    while first < |files| && Runnable(files[first])
      invariant first <= |files|
      invariant forall k :: 0 <= k < first ==> Runnable(files[k])
    {
      first := first + 1;
    }
    forall k | first < k < |files|
      ensures !Runnable(files[k])
    {
      assert SamePayload(files[k], plans[k]) && SamePayload(files[first], plans[first]);
      assert !Before(plans[k], plans[first]);
    }
    forall k | 0 <= k < |files| && k <= first
      ensures files[k].dataStart % PAGE == 0
    {
      forall m | 0 <= m < k
        ensures Runnable(plans[m])
      {
        assert SamePayload(files[m], plans[m]);
      }
      assert RequestsOf(plans)[k].alignment == AlignmentOf(plans, k);
      assert AlignmentOf(plans, k) == PAGE;
    }
  }

  /** What the scan relies on: runnable entries first, and page alignment up to and including
      the first other entry. */
  predicate PageAlignedUpTo(files: seq<ZipFile>, first: nat) {
    && first <= |files|
    && (forall k {:trigger files[k]} :: 0 <= k < |files| ==> (Runnable(files[k]) <==> k < first))
    && (forall k {:trigger files[k]} :: 0 <= k < |files| && k <= first ==> files[k].dataStart % PAGE == 0)
  }

  lemma {:induction false} ScanAligned(files: seq<ZipFile>, first: nat, n: nat)
    requires n <= |files| && Admit(files).Ok? && PageAlignedUpTo(files, first)
    ensures Admit(files[..n]).Ok?
    ensures ScanAll(files[..n]).Ok?
    ensures ScanAll(files[..n]).value.total == Admit(files[..n]).value
    ensures ScanAll(files[..n]).value.hapDataSize == if first < n then Some(files[first].dataStart) else None
    decreases n
  {
    hide Runnable, AdmitOne;
    if Admit(files[..n]).Err? {
      AdmitStops(files, n);
    }
    if n > 0 {
      ScanAligned(files, first, n - 1);
      assert files[..n][..n - 1] == files[..n - 1];
      assert files[..n][n - 1] == files[n - 1];
    }
  }
}
