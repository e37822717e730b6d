/** When a file is code-signed: what decides it before signing, and what shows it afterwards. */
module CodeSigningDue {
  import opened Wrappers
  import opened ByteCodec
  import opened Format
  import opened SigningBlocks
  import opened ZipAlign
  import opened EntryForms
  import opened CodeSign
  import opened CodeSignProperty
  import opened Sign
  import opened SignedFile
  import opened Resign

  /** The signing block has an entry of type 0x20000003. */
  predicate HasPropertyEntry(file: Bytes) {
    var layout := LayoutOf(file);
    && layout.Ok? && layout.value.signingBlock.Some?
    && exists e :: e in layout.value.signingBlock.value.entries && e.blockType == 0x2000_0003
  }

  predicate HasRunnableFile(files: seq<ZipFile>) {
    exists f :: f in files && RunnableFile(f)
  }

  lemma {:induction false} FirstPropertyFound(data: Bytes, entries: seq<Entry>)
    requires forall e :: e in entries ==> e.start <= e.end <= |data|
    ensures FirstValue(data, TYPE_PROPERTY, entries).Some? <==>
            exists e :: e in entries && e.blockType == 0x2000_0003
  {
    if entries != [] {
      FirstPropertyFound(data, entries[1..]);
      assert entries == [entries[0]] + entries[1..];
      assert entries[0] in entries;
      if e :| e in entries && e.blockType == 0x2000_0003 && entries[0].blockType != 0x2000_0003 {
        assert e in entries[1..];
      }
    }
  }

  lemma PropertyExactly(file: Bytes)
    ensures HasProperty(file) <==> HasPropertyEntry(file)
  {
    hide LayoutOf, FirstValue;
    var layout := LayoutOf(file);
    if layout.Ok? && layout.value.signingBlock.Some? {
      var block := layout.value.signingBlock.value;
      BlockIsAccepted(file);
      AcceptedRangesAreInside(file, layout.value.cdOffset, block);
      FirstPropertyFound(file, block.entries);
    }
  }

  lemma RunnableExactly(files: seq<ZipFile>)
    ensures HasRunnableFile(files) <==> exists f :: f in files && Runnable(f)
  {
    hide Runnable, RunnableFile;
    if f :| f in files && RunnableFile(f) {
      ClassesExactly(f);
    }
    if f :| f in files && Runnable(f) {
      ClassesExactly(f);
    }
  }

  /** A file is due for code signing exactly if its block has no property and one of its entries is runnable.
      The listing is looked at only if there is no property, and has to be readable and allowed then. */
  lemma DueExactly(env: Env, input: Bytes)
    ensures LayoutOf(input).Err? ==> NeedsCodeSign(env, input) == Err(HapFormat(LayoutOf(input).error))
    ensures LayoutOf(input).Ok? && HasPropertyEntry(input) ==> NeedsCodeSign(env, input) == Ok(false)
    ensures LayoutOf(input).Ok? && !HasPropertyEntry(input) && env.readZip(input).Err? ==>
              NeedsCodeSign(env, input) == Err(HapCodeSign(ZipFailure(env.readZip(input).error)))
    ensures LayoutOf(input).Ok? && !HasPropertyEntry(input) && env.readZip(input).Ok? ==>
              var files := env.readZip(input).value.files;
              if AllAllowed(files) then NeedsCodeSign(env, input) == Ok(HasRunnableFile(files))
              else NeedsCodeSign(env, input).Err?
  {
    hide LayoutOf, FirstValue, HasPropertyEntry, HasRunnableFile, Runnable, AllAllowed, Admit;
    PropertyExactly(input);
    if env.readZip(input).Ok? {
      AllowedExactly(env.readZip(input).value.files);
      RunnableExactly(env.readZip(input).value.files);
    }
  }

  /** What can be read off a signed file: it has a property exactly if it had one before, or else a runnable
      file. So no runnable file is ever left without a code signature. */
  lemma PropertyWrittenExactly(env: Env, input: Bytes, identity: SigningIdentity, profile: Bytes, out: Bytes)
    requires Signed(env, input, identity, profile) == Ok(out)
    requires RecordStaysLast(env, input, identity, profile)
    ensures LayoutOf(input).Ok? && LayoutOf(out).Ok?
    ensures HasPropertyEntry(input) || env.readZip(input).Ok?
    ensures HasPropertyEntry(out) <==>
            HasPropertyEntry(input) || HasRunnableFile(env.readZip(input).value.files)
  {
    hide LayoutOf, HasPropertyEntry, HasRunnableFile, Prepare, Signed, NeedsCodeSign, RecordStaysLast, AllAllowed,
         FinalBlocks, PairsOf, BlockSize, Announce, HasProperty, PartsUsed;
    SignedIsAssembled(env, input, identity, profile, out);
    OutputParts(env, input, identity, profile, out);
    NeedIsKnown(env, input, identity, profile);
    DueExactly(env, input);
    PropertyExactly(input);
    PropertyExactly(out);
    if NeedsCodeSign(env, input) == Ok(true) {
      CodeSignedBlocks(env, input, identity, profile);
      FirstIsProperty(env, input, identity, profile, out);
    } else if HasPropertyEntry(input) {
      PropertyComesFirst(env, input, identity, profile);
      FirstIsProperty(env, input, identity, profile, out);
    } else {
      NoneIsKept(env, input, identity, profile);
      NoneIsWritten(env, input, identity, profile, out);
    }
  }

  lemma NeedIsKnown(env: Env, input: Bytes, identity: SigningIdentity, profile: Bytes)
    requires Prepare(env, input, identity, profile).Ok?
    ensures NeedsCodeSign(env, input).Ok?
  {
    hide NeedsCodeSign, LayoutOf, OptionalBlocks, AlignedZip;
  }

  lemma FirstIsProperty(env: Env, input: Bytes, identity: SigningIdentity, profile: Bytes, out: Bytes)
    requires Signed(env, input, identity, profile) == Ok(out)
    requires RecordStaysLast(env, input, identity, profile)
    requires Prepare(env, input, identity, profile).Ok?
    requires
      var optional := Prepare(env, input, identity, profile).value.optional;
      optional != [] && optional[0].blockType == TYPE_PROPERTY
    ensures HasPropertyEntry(out)
  {
    hide LayoutOf, Prepare, Signed, RecordStaysLast, PairsOf, BlockSize, Announce, PreservedOptionalBlocks, OfType;
    SignedIsAssembled(env, input, identity, profile, out);
    OutputParts(env, input, identity, profile, out);
    var blocks := FinalBlocks(env, Prepare(env, input, identity, profile).value, identity);
    var entries := LayoutOf(out).value.signingBlock.value.entries;
    assert entries[0].blockType == blocks[0].blockType && entries[0] in entries;
  }

  lemma NoneIsKept(env: Env, input: Bytes, identity: SigningIdentity, profile: Bytes)
    requires NeedsCodeSign(env, input) == Ok(false) && Prepare(env, input, identity, profile).Ok?
    requires !HasPropertyEntry(input)
    ensures forall b :: b in Prepare(env, input, identity, profile).value.optional ==> b.blockType == TYPE_PROFILE
  {
    hide LayoutOf, NeedsCodeSign, Prepare, PropertyBlocks, OfType;
    PreparedBefore(env, input, identity, profile);
    OptionalWithoutCodeSign(env, input, identity, profile);
    var layout := LayoutOf(input).value;
    if layout.signingBlock.Some? {
      NoneToKeep(input, layout.signingBlock.value.entries);
    }
  }

  lemma {:induction false} NoneToKeep(data: Bytes, entries: seq<Entry>)
    requires forall e :: e in entries ==> e.blockType != TYPE_PROPERTY
    ensures PropertyBlocks(data, entries) == Ok([])
    decreases |entries|
  {
    if entries != [] {
      var init := entries[..|entries| - 1];
      assert entries[|entries| - 1] in entries;
      NoneToKeep(data, init);
    }
  }

  lemma NoneIsWritten(env: Env, input: Bytes, identity: SigningIdentity, profile: Bytes, out: Bytes)
    requires Signed(env, input, identity, profile) == Ok(out)
    requires RecordStaysLast(env, input, identity, profile)
    requires Prepare(env, input, identity, profile).Ok?
    requires forall b :: b in Prepare(env, input, identity, profile).value.optional ==> b.blockType == TYPE_PROFILE
    ensures !HasPropertyEntry(out)
  {
    hide LayoutOf, Prepare, Signed, RecordStaysLast, PairsOf, BlockSize, Announce, PreservedOptionalBlocks, OfType;
    SignedIsAssembled(env, input, identity, profile, out);
    OutputParts(env, input, identity, profile, out);
    var blocks := FinalBlocks(env, Prepare(env, input, identity, profile).value, identity);
    var entries := LayoutOf(out).value.signingBlock.value.entries;
    forall i | 0 <= i < |entries|
      ensures entries[i].blockType != 0x2000_0003
    {
      assert entries[i].blockType == blocks[i].blockType && blocks[i] in blocks;
    }
  }
}
