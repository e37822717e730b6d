/** How ZIP entries are treated, in the bytes of their names and in numbers: which are signed, which are refused,
    in what order and at which alignment they are written. */
module EntryForms {
  import opened Wrappers
  import opened ByteCodec
  import opened Names
  import opened ZipAlign

  // ----- Names -----

  predicate Ends(name: Bytes, end: Bytes) {
    |end| <= |name| && forall k :: 0 <= k < |end| ==> name[|name| - |end| + k] == end[k]
  }

  predicate Starts(name: Bytes, start: Bytes) {
    |start| <= |name| && forall k :: 0 <= k < |start| ==> name[k] == start[k]
  }

  /** A file under "libs/" or with a name that ends with ".an". */
  predicate NativeFile(file: ZipFile) {
    !file.isDirectory && (Starts(file.name, [0x6C, 0x69, 0x62, 0x73, 0x2F]) || Ends(file.name, [0x2E, 0x61, 0x6E]))
  }

  /** A native file, or one with a name that ends with ".abc". */
  predicate RunnableFile(file: ZipFile) {
    NativeFile(file) || (!file.isDirectory && Ends(file.name, [0x2E, 0x61, 0x62, 0x63]))
  }

  /** "hnp/" at the start and ".hnp" at the end. */
  predicate NestedPackage(file: ZipFile) {
    Starts(file.name, [0x68, 0x6E, 0x70, 0x2F]) && Ends(file.name, [0x2E, 0x68, 0x6E, 0x70])
  }

  lemma AffixForms(name: Bytes, affix: Bytes)
    ensures StartsWith(name, affix) <==> Starts(name, affix)
    ensures EndsWith(name, affix) <==> Ends(name, affix)
  {
    if EndsWith(name, affix) {
      forall k | 0 <= k < |affix|
        ensures name[|name| - |affix| + k] == affix[k]
      {
        assert name[|name| - |affix|..][k] == affix[k];
      }
    }
  }

  /** The classification, entry by entry. */
  lemma ClassesExactly(file: ZipFile)
    ensures !file.isDirectory && IsNativeName(file.name) <==> NativeFile(file)
    ensures Runnable(file) <==> RunnableFile(file)
    ensures IsNestedHnp(file.name) <==> NestedPackage(file)
    ensures file.name == PAGES_INFO <==>
            file.name == [0x2E, 0x70, 0x61, 0x67, 0x65, 0x73, 0x2E, 0x69, 0x6E, 0x66, 0x6F]
  {
    hide StartsWith, EndsWith, Starts, Ends;
    AffixForms(file.name, LIBS);
    AffixForms(file.name, AN);
    AffixForms(file.name, ABC);
    AffixForms(file.name, HNP_DIRECTORY);
    AffixForms(file.name, HNP);
  }

  // ----- Admission -----

  function SumOfSizes(files: seq<ZipFile>): nat {
    if files == [] then 0 else files[0].size + SumOfSizes(files[1..])
  }

  lemma {:induction false} SumsAgree(files: seq<ZipFile>)
    ensures SumOfSizes(files) == TotalSize(files)
  {
    if files != [] {
      assert files == [files[0]] + files[1..];
      TotalSizeOfParts([files[0]], files[1..]);
      SumsAgree(files[1..]);
      var one: seq<ZipFile> := [files[0]];
      assert one[..0] == [];
      assert TotalSize(one) == files[0].size;
    }
  }

  /** Not a nested package, at most 512 MiB, and stored if it runs. */
  predicate Allowed(file: ZipFile) {
    !NestedPackage(file) && file.size <= 536870912 && (RunnableFile(file) ==> file.compression == Stored)
  }

  /** Every entry is allowed, and all together have at most 2 GiB. */
  predicate AllAllowed(files: seq<ZipFile>) {
    (forall f :: f in files ==> Allowed(f)) && SumOfSizes(files) <= 2147483648
  }

  lemma AllowedExactly(files: seq<ZipFile>)
    ensures Admit(files).Ok? <==> AllAllowed(files)
  {
    hide IsNestedHnp, Runnable, RunnableFile, NestedPackage;
    AdmitExactly(files);
    SumsAgree(files);
    forall f | f in files
      ensures Admissible(f) <==> Allowed(f)
    {
      ClassesExactly(f);
    }
  }

  /** The first entry that cannot be added, and why. */
  lemma {:induction false} RefusedAt(files: seq<ZipFile>) returns (i: nat)
    requires Admit(files).Err?
    ensures i < |files| && AllAllowed(files[..i]) && !AllAllowed(files[..i + 1])
    ensures
      var f := files[i];
      Admit(files).error
      == if NestedPackage(f) then Unsupported(f.name)
         else if f.size > 536870912 then EntryTooLarge(f.size)
         else if SumOfSizes(files[..i]) + f.size > 2147483648 then ArchiveTooLarge
         else RunnableCompression(f.name)
    decreases |files|
  {
    hide IsNestedHnp, Runnable, RunnableFile, NestedPackage, AllAllowed, SumOfSizes;
    var n := |files| - 1;
    if Admit(files[..n]).Err? {
      i := RefusedAt(files[..n]);
      assert files[..n][..i] == files[..i] && files[..n][..i + 1] == files[..i + 1];
    } else {
      i := n;
      assert files[..n + 1] == files;
      AllowedExactly(files[..n]);
      AllowedExactly(files);
      AdmitExactly(files[..n]);
      SumsAgree(files[..n]);
      ClassesExactly(files[n]);
    }
  }

  // ----- Order -----

  /** Runnable files, then other stored entries, then the rest; names ascend in each of the three. */
  predicate WrittenBefore(a: ZipFile, b: ZipFile) {
    if RunnableFile(a) != RunnableFile(b) then RunnableFile(a)
    else if !RunnableFile(a) && (a.compression == Stored) != (b.compression == Stored) then a.compression == Stored
    else NameBelow(a.name, b.name) || a.name == b.name
  }

  lemma OrderExactly(files: seq<ZipFile>, i: nat, j: nat)
    requires i < j < |Sorted(files)|
    ensures WrittenBefore(Sorted(files)[i], Sorted(files)[j])
  {
    hide Runnable, RunnableFile, Less, NameBelow, Sorted;
    var a, b := Sorted(files)[i], Sorted(files)[j];
    SortedInOrder(files);
    assert !Before(b, a);
    ClassesExactly(a);
    ClassesExactly(b);
    LessTotal(a.name, b.name);
    LessExactly(a.name, b.name);
  }

  /** The entries that stand in the same group under the same name as f, in their order. */
  function Twins(files: seq<ZipFile>, f: ZipFile): seq<ZipFile> {
    if files == [] then []
    else
      var rest, last := Twins(files[..|files| - 1], f), files[|files| - 1];
      if WrittenBefore(last, f) && WrittenBefore(f, last) then rest + [last] else rest
  }

  lemma TwinsSnoc(files: seq<ZipFile>, last: ZipFile, f: ZipFile)
    ensures Twins(files + [last], f)
         == Twins(files, f) + if WrittenBefore(last, f) && WrittenBefore(f, last) then [last] else []
  {
    hide WrittenBefore;
    assert (files + [last])[..|files + [last]| - 1] == files;
  }

  lemma BeforeExactly(a: ZipFile, b: ZipFile)
    ensures Before(a, b) <==> WrittenBefore(a, b) && !WrittenBefore(b, a)
    ensures !Before(a, b) && !Before(b, a) <==> WrittenBefore(a, b) && WrittenBefore(b, a)
  {
    hide Runnable, RunnableFile, Less, NameBelow;
    ClassesExactly(a);
    ClassesExactly(b);
    LessTotal(a.name, b.name);
    LessExactly(a.name, b.name);
    LessExactly(b.name, a.name);
  }

  lemma {:induction false} InsertKeepsTwins(files: seq<ZipFile>, g: ZipFile, f: ZipFile)
    ensures Twins(InsertSorted(files, g), f) == Twins(files + [g], f)
    decreases |files|
  {
    hide Before, WrittenBefore;
    if files != [] {
      var init, last := files[..|files| - 1], files[|files| - 1];
      assert files == init + [last];
      if Before(g, last) {
        InsertKeepsTwins(init, g, f);
        TwinsSnoc(InsertSorted(init, g), last, f);
        TwinsSnoc(init, g, f);
        TwinsSnoc(init, last, f);
        TwinsSnoc(files, g, f);
        NotBoth(g, last, f);
      }
    }
  }

  /** Only one of two entries of different places is a twin of a third. */
  lemma NotBoth(a: ZipFile, b: ZipFile, f: ZipFile)
    requires Before(a, b)
    ensures !(WrittenBefore(a, f) && WrittenBefore(f, a) && WrittenBefore(b, f) && WrittenBefore(f, b))
  {
    hide Before, WrittenBefore;
    BeforeExactly(a, f);
    BeforeExactly(b, f);
    BeforeExactly(a, b);
    LessTotal(a.name, a.name);
    if !Before(f, a) && !Before(b, f) && !Before(a, f) && !Before(f, b) {
      NotBeforeTransitive(b, f, a);
    }
  }

  /** The sort is stable: entries under one name stay in their order. */
  lemma {:induction false} SortIsStable(files: seq<ZipFile>, f: ZipFile)
    ensures Twins(Sorted(files), f) == Twins(files, f)
    decreases |files|
  {
    hide WrittenBefore;
    if files != [] {
      var init, last := files[..|files| - 1], files[|files| - 1];
      assert files == init + [last];
      SortIsStable(init, f);
      InsertKeepsTwins(Sorted(init), last, f);
      TwinsSnoc(Sorted(init), last, f);
      TwinsSnoc(init, last, f);
    }
  }

  // ----- Requests -----

  /** Everything but ".pages.info" is written again, as it was; runnable files and the first other entry start a
      page of 4096 bytes, further stored entries a multiple of four. */
  lemma RequestsExactly(plans: seq<ZipFile>, i: nat)
    requires i < |plans|
    ensures |RequestsOf(plans)| == |plans|
    ensures
      var q, f := RequestsOf(plans)[i], plans[i];
      && q.name == f.name && q.isDirectory == f.isDirectory && q.compression == f.compression
      && q.content == (if f.isDirectory then [] else f.content)
      && (RunnableFile(f) || (forall k :: 0 <= k < i ==> RunnableFile(plans[k])) ==> q.alignment == 4096)
      && (!RunnableFile(f) && (exists k :: 0 <= k < i && !RunnableFile(plans[k])) ==>
            q.alignment == if f.compression == Stored then 4 else 1)
  {
    hide Runnable, RunnableFile;
    forall k | 0 <= k <= i
      ensures Runnable(plans[k]) <==> RunnableFile(plans[k])
    {
      ClassesExactly(plans[k]);
    }
    assert RequestsOf(plans)[i] == RequestOf(plans, i);
  }

  /** All entries but ".pages.info", in order. */
  function Kept(files: seq<ZipFile>): seq<ZipFile> {
    if files == [] then []
    else if files[0].name == [0x2E, 0x70, 0x61, 0x67, 0x65, 0x73, 0x2E, 0x69, 0x6E, 0x66, 0x6F] then Kept(files[1..])
    else [files[0]] + Kept(files[1..])
  }

  lemma {:induction false} KeptSnoc(files: seq<ZipFile>, last: ZipFile)
    ensures Kept(files + [last]) == Kept(files) + if last.name == PAGES_INFO then [] else [last]
  {
    if files == [] {
      assert files + [last] == [last];
      assert [last][1..] == [];
    } else {
      assert (files + [last])[1..] == files[1..] + [last];
      KeptSnoc(files[1..], last);
    }
  }

  lemma {:induction false} KeptExactly(files: seq<ZipFile>)
    ensures WithoutPagesInfo(files) == Kept(files)
    decreases |files|
  {
    if files != [] {
      var n := |files| - 1;
      assert files == files[..n] + [files[n]];
      KeptExactly(files[..n]);
      KeptSnoc(files[..n], files[n]);
    }
  }

  /** The first file whose content is not as long as declared stops the writing. */
  lemma {:induction false} MismatchAt(plans: seq<ZipFile>) returns (i: nat)
    requires FirstMismatch(plans).Some?
    ensures i < |plans| && FirstMismatch(plans) == Some(plans[i].name)
    ensures !plans[i].isDirectory && |plans[i].content| != plans[i].size
    ensures forall k :: 0 <= k < i ==> plans[k].isDirectory || |plans[k].content| == plans[k].size
    decreases |plans|
  {
    var n := |plans| - 1;
    if FirstMismatch(plans[..n]).Some? {
      i := MismatchAt(plans[..n]);
      assert forall k :: 0 <= k < n ==> plans[..n][k] == plans[k];
    } else {
      i := n;
      forall k | 0 <= k < n
        ensures Copies(plans[k])
      {
        assert plans[k] in plans[..n];
      }
    }
  }

  /** The rewriting succeeds exactly if the archive can be read, every entry it keeps is allowed and as long as
      declared, and the requests for them, in order, can be written. */
  lemma RewriteExactly(read: ZipReader, write: ZipWriter, input: Bytes)
    ensures AlignedZip(read, write, input).Ok? <==>
      && read(input).Ok?
      && var kept := Kept(read(input).value.files);
         && AllAllowed(kept) && (forall f :: f in kept ==> f.isDirectory || |f.content| == f.size)
         && write(RequestsOf(Sorted(kept)), read(input).value.comment).Ok?
    ensures AlignedZip(read, write, input).Ok? ==>
      AlignedZip(read, write, input).value
      == write(RequestsOf(Sorted(Kept(read(input).value.files))), read(input).value.comment).value
  {
    hide Admit, WithoutPagesInfo, Sorted, RequestsOf, AllAllowed, Kept;
    if read(input).Ok? {
      var kept := Kept(read(input).value.files);
      KeptExactly(read(input).value.files);
      AllowedExactly(kept);
      assert forall f :: f in kept <==> f in multiset(kept);
      assert forall f :: f in Sorted(kept) <==> f in multiset(Sorted(kept));
    }
  }

  // ----- What is hashed and signed -----

  function Natives(files: seq<ZipFile>): seq<ZipFile> {
    if files == [] then []
    else if NativeFile(files[0]) then [files[0]] + Natives(files[1..])
    else Natives(files[1..])
  }

  lemma {:induction false} NativesSnoc(files: seq<ZipFile>, last: ZipFile)
    ensures Natives(files + [last]) == Natives(files) + if NativeFile(last) then [last] else []
  {
    hide NativeFile;
    if files == [] {
      assert files + [last] == [last];
      assert [last][1..] == [];
    } else {
      assert (files + [last])[1..] == files[1..] + [last];
      NativesSnoc(files[1..], last);
    }
  }

  lemma {:induction false} NativesAgree(files: seq<ZipFile>)
    ensures NativeFiles(files) == Natives(files)
    decreases |files|
  {
    hide IsNativeName, NativeFile;
    if files != [] {
      var n := |files| - 1;
      assert files == files[..n] + [files[n]];
      NativesAgree(files[..n]);
      NativesSnoc(files[..n], files[n]);
      ClassesExactly(files[n]);
    }
  }

  /** Index of the first entry that is not runnable, or the number of entries. */
  predicate IsFirstOther(files: seq<ZipFile>, first: nat) {
    && first <= |files| && (forall k :: 0 <= k < first ==> RunnableFile(files[k]))
    && (first < |files| ==> !RunnableFile(files[first]))
  }

  /** Collecting accepts allowed entries whose data starts a page, up to the first that is not runnable: what is
      hashed ends where that one starts, and every native file is signed. */
  lemma {:induction false} CollectingExactly(files: seq<ZipFile>, first: nat)
    requires IsFirstOther(files, first)
    ensures ScanAll(files).Ok? <==>
            AllAllowed(files) && forall k {:trigger files[k]} :: 0 <= k < |files| && k <= first ==>
              files[k].dataStart % 4096 == 0
    ensures ScanAll(files).Ok? ==>
      && ScanAll(files).value.hapDataSize == (if first < |files| then Some(files[first].dataStart) else None)
      && ScanAll(files).value.natives == Natives(files)
      && Admit(files) == Ok(ScanAll(files).value.total)
    decreases |files|
  {
    hide Runnable, RunnableFile, AllAllowed, NativeFile, IsNativeName, AdmitOne, Natives;
    AllowedExactly(files);
    if files == [] {
      assert Natives([]) == [] by { NativesAgree([]); }
    } else {
      var n := |files| - 1;
      assert files[..n] + [files[n]] == files;
      CollectingExactly(files[..n], if first <= n then first else n);
      AllowedExactly(files[..n]);
      NativesSnoc(files[..n], files[n]);
      ClassesExactly(files[n]);
      assert forall k :: 0 <= k < n ==> files[..n][k] == files[k];
    }
  }
}
