/** The material store and the credential store as an object whose every durable step may fail,
    with a ghost record of the steps that were taken. */
module MaterialStore {
  import opened Wrappers
  import opened ByteCodec
  import opened Names
  import opened PendingKeys

  datatype StoreError = InvalidIdentifier | Io | Json | InvalidPending

  // ----- Sorted listings -----

  /** ".p12" */
  const P12_SUFFIX: Bytes := [0x2E, 0x70, 0x31, 0x32]

  /** The order of the P12 files of two stems. It is not the order of the stems: `key-old.p12` comes
      before `key.p12`. */
  predicate FileBefore(a: Bytes, b: Bytes) {
    Less(a + P12_SUFFIX, b + P12_SUFFIX)
  }

  lemma FileBeforeExactly(a: Bytes, b: Bytes)
    ensures FileBefore(a, b) <==> NameBelow(a + [0x2E, 0x70, 0x31, 0x32], b + [0x2E, 0x70, 0x31, 0x32])
  {
    hide Less;
    LessExactly(a + P12_SUFFIX, b + P12_SUFFIX);
  }

  lemma FileBeforeTotal(a: Bytes, b: Bytes)
    ensures FileBefore(a, b) || a == b || FileBefore(b, a)
    ensures !(FileBefore(a, b) && FileBefore(b, a))
    ensures !FileBefore(a, a)
  {
    hide Less;
    LessTotal(a + P12_SUFFIX, b + P12_SUFFIX);
    LessTotal(a + P12_SUFFIX, a + P12_SUFFIX);
    if a + P12_SUFFIX == b + P12_SUFFIX {
      assert a == (a + P12_SUFFIX)[..|a|] && b == (b + P12_SUFFIX)[..|a|];
    }
  }

  lemma FileBeforeTransitive(a: Bytes, b: Bytes, c: Bytes)
    requires FileBefore(a, b) && FileBefore(b, c)
    ensures FileBefore(a, c)
  {
    LessTransitive(a + P12_SUFFIX, b + P12_SUFFIX, c + P12_SUFFIX);
  }

  /** Stems "a" and "a-b" are listed in the opposite order of their names. */
  lemma FileOrderIsNotStemOrder()
    ensures ValidIdentifier([0x61]) && ValidIdentifier([0x61, 0x2D, 0x62])
    ensures Less([0x61], [0x61, 0x2D, 0x62]) && FileBefore([0x61, 0x2D, 0x62], [0x61])
  {
    var a, b: Bytes := [0x61] + P12_SUFFIX, [0x61, 0x2D, 0x62] + P12_SUFFIX;
    assert b[1..][0] == 0x2D && a[1..][0] == 0x2E;
    assert [0x61, 0x2D, 0x62][1..] != [];
  }

  predicate StrictlySorted(names: seq<Bytes>) {
    forall i, j :: 0 <= i < j < |names| ==> FileBefore(names[i], names[j])
  }

  /** The stems of a set in the order of their P12 files. */
  ghost predicate Lists(names: seq<Bytes>, s: set<Bytes>) {
    StrictlySorted(names) && forall n :: n in names <==> n in s
  }

  method InsertName(names: seq<Bytes>, name: Bytes) returns (r: seq<Bytes>)
    requires StrictlySorted(names) && name !in names
    ensures StrictlySorted(r) && forall n :: n in r <==> n in names || n == name
  {
    hide FileBefore;
    var k := 0;
    while k < |names| && FileBefore(names[k], name)
      invariant k <= |names|
      invariant forall i :: 0 <= i < k ==> FileBefore(names[i], name)
    {
      k := k + 1;
    }
    if k < |names| {
      assert names[k] in names;
      FileBeforeTotal(names[k], name);
      forall j | k <= j < |names|
        ensures FileBefore(name, names[j])
      {
        if k < j {
          FileBeforeTransitive(name, names[k], names[j]);
        }
      }
    }
    r := names[..k] + [name] + names[k..];
    assert forall n :: n in names <==> n in names[..k] || n in names[k..];
  }

  /** A listing is unique, so the order in which the directory was read does not matter. */
  lemma ListingUnique(a: seq<Bytes>, b: seq<Bytes>, s: set<Bytes>)
    requires Lists(a, s) && Lists(b, s)
    ensures a == b
    decreases |a|
  {
    hide FileBefore;
    assert b == [] || b[0] in b;
    if a == [] {
    } else {
      assert a[0] in a;
      var i :| 0 <= i < |b| && b[i] == a[0];
      var j :| 0 <= j < |a| && a[j] == b[0];
      FileBeforeTotal(a[0], b[0]);
      assert a[0] == b[0];
      RestLists(a, s);
      RestLists(b, s);
      ListingUnique(a[1..], b[1..], s - {a[0]});
      assert a == [a[0]] + a[1..] && b == [b[0]] + b[1..];
    }
  }

  lemma RestLists(a: seq<Bytes>, s: set<Bytes>)
    requires Lists(a, s) && a != []
    ensures Lists(a[1..], s - {a[0]})
  {
    hide FileBefore;
    FileBeforeTotal(a[0], a[0]);
    assert a == [a[0]] + a[1..];
    forall n
      ensures n in a[1..] <==> n in s - {a[0]}
    {
      if n in a[1..] {
        var k :| 0 <= k < |a[1..]| && a[1..][k] == n;
        assert FileBefore(a[0], a[k + 1]);
        assert n in a;
      }
    }
  }

  /** What is wrong with the pending record file of that stem, if anything. */
  function PendingProblem(s: Files, id: Bytes): Option<StoreError> {
    if !ValidIdentifier(id) then Some(InvalidIdentifier)
    else if id in s.malformed || id !in s.pending then Some(Json)
    else if s.pending[id].identifier != id || id !in s.p12s then Some(InvalidPending)
    else None
  }

  /** A record file is faulty exactly if its name is no identifier, its contents cannot be decoded, it carries
      another identifier, or its P12 is missing; the first of these is reported. */
  lemma ProblemsExactly(s: Files, id: Bytes)
    requires id in s.pending.Keys + s.malformed
    ensures PendingProblem(s, id).None? <==>
            ValidIdentifier(id) && id !in s.malformed && s.pending[id].identifier == id && id in s.p12s
    ensures PendingProblem(s, id).Some? ==>
      match PendingProblem(s, id).value
      case InvalidIdentifier => !ValidIdentifier(id)
      case Json => ValidIdentifier(id) && id in s.malformed
      case InvalidPending =>
        ValidIdentifier(id) && id in s.pending && (s.pending[id].identifier != id || id !in s.p12s)
      case Io => false
  {
    hide ValidIdentifier;
  }

  // ----- The stores -----

  /** From that step on no key was generated and nothing uploaded. */
  ghost predicate SinceIsQuiet(log: seq<Effect>, from: nat) {
    forall i :: from <= i < |log| ==> !log[i].Generated? && !log[i].Uploaded?
  }

  class Workspace {
    const g: Generator
    var files: Files
    ghost const origin: Files
    ghost var log: seq<Effect>
    /** Some access to the file system, the credential store or the service has failed. */
    ghost var faulted: bool

    /** The files are the result of the logged steps, each of which was allowed when taken. */
    ghost predicate Valid()
      reads this`files, this`log
    {
      Sound(g) && Recoverable(g, origin) && Follows(g, origin, log) && files == StateAfter(origin, log)
    }

    constructor (g: Generator, files: Files)
      ensures this.g == g && this.files == files && origin == files && log == [] && !faulted
      ensures Sound(g) && Recoverable(g, files) ==> Valid()
    {
      this.g := g;
      this.files := files;
      origin := files;
      log := [];
      faulted := false;
    }

    /** Any access may fail. */
    method Access() returns (ok: bool)
      modifies this`faulted
      ensures faulted == (old(faulted) || !ok)
    {
      ok := *;
      faulted := faulted || !ok;
    }

    lemma ValidRecoverable()
      requires Valid()
      ensures Recoverable(g, files)
    {
      hide Recoverable, Follows, Sound;
      RunKeepsRecoverable(g, origin, log, |log|);
      assert log[..|log|] == log;
    }

    /** Steps that were allowed one after the other keep the object valid. */
    lemma StaysValid(files0: Files, log0: seq<Effect>, done: seq<Effect>)
      requires Sound(g) && Recoverable(g, origin) && Follows(g, origin, log0) && files0 == StateAfter(origin, log0)
      requires Follows(g, files0, done) && log == log0 + done && files == StateAfter(files0, done)
      ensures Valid()
    {
      hide Recoverable, Follows, Sound;
      FollowsConcat(g, origin, log0, done);
    }

    /** One durable step, or a failure that changes nothing. */
    method Perform(e: Effect) returns (ok: bool)
      modifies this
      ensures faulted == (old(faulted) || !ok)
      ensures if ok then files == Apply(old(files), e) && log == old(log) + [e]
              else files == old(files) && log == old(log)
      ensures old(Valid()) && Allowed(g, old(files), e) ==> Valid()
    {
      hide Recoverable, Follows, Sound, Allowed, Apply;
      ghost var files0, log0, wasValid := files, log, Valid();
      ok := Access();
      if ok {
        log := log + [e];
        files := Apply(files, e);
        if wasValid && Allowed(g, files0, e) {
          FollowsSnoc(g, origin, log0, e);
        }
      }
    }

    /** `list_key_pairs`: directory entries in any order, kept if the certificate is beside them,
        sorted by P12 file. */
    method ListKeyPairs() returns (r: Result<seq<Bytes>, StoreError>)
      modifies this`faulted
      ensures faulted == (old(faulted) || r.Err?)
      ensures r.Ok? ==> Lists(r.value, files.p12s.Keys * files.certificates.Keys)
      ensures r.Err? ==> r.error == Io
    {
      hide FileBefore;
      var ok := Access();
      if !ok {
        return Err(Io);
      }
      var names: seq<Bytes> := [];
      var rest := files.p12s.Keys;
      while rest != {}
        invariant rest <= files.p12s.Keys && faulted == old(faulted)
        invariant StrictlySorted(names)
        invariant forall n :: n in names <==> n in files.p12s.Keys - rest && n in files.certificates
        decreases rest
      {
        var name :| name in rest;
        rest := rest - {name};
        if name in files.certificates {
          names := InsertName(names, name);
        }
      }
      return Ok(names);
    }

    /** `list_pending_keys`: every record file must carry its own valid identifier and have its P12;
        otherwise the listing fails with the problem of one of them. */
    method ListPendingKeys() returns (r: Result<seq<PendingRecord>, StoreError>)
      modifies this`faulted
      ensures faulted == (old(faulted) || r == Err(Io))
      ensures r.Ok? ==>
        && (forall id :: id in files.pending.Keys + files.malformed ==> PendingProblem(files, id).None?)
        && (forall i, j :: 0 <= i < j < |r.value| ==> FileBefore(r.value[i].identifier, r.value[j].identifier))
        && (forall p :: p in r.value <==> p.identifier in files.pending && files.pending[p.identifier] == p)
      ensures r.Err? && r.error != Io ==>
        exists id :: id in files.pending.Keys + files.malformed && PendingProblem(files, id) == Some(r.error)
    {
      hide FileBefore, ValidIdentifier;
      var ok := Access();
      if !ok {
        return Err(Io);
      }
      var names: seq<Bytes> := [];
      var rest := files.pending.Keys + files.malformed;
      while rest != {}
        invariant rest <= files.pending.Keys + files.malformed && faulted == old(faulted)
        invariant StrictlySorted(names)
        invariant forall n :: n in names <==> n in files.pending.Keys + files.malformed && n !in rest
        invariant forall n :: n in names ==> PendingProblem(files, n).None?
        decreases rest
      {
        var name :| name in rest;
        rest := rest - {name};
        var problem := PendingProblem(files, name);
        if problem.Some? {
          return Err(problem.value);
        }
        names := InsertName(names, name);
      }
      var pending: seq<PendingRecord> := [];
      for i := 0 to |names|
        invariant |pending| == i && faulted == old(faulted)
        invariant forall k :: 0 <= k < i ==> names[k] in files.pending && pending[k] == files.pending[names[k]]
      {
        assert names[i] in names;
        pending := pending + [files.pending[names[i]]];
      }
      PendingListed(names, pending);
      return Ok(pending);
    }

    lemma PendingListed(names: seq<Bytes>, pending: seq<PendingRecord>)
      requires StrictlySorted(names) && |pending| == |names|
      requires forall id :: id in files.pending ==> id in names
      requires forall n :: n in names ==> PendingProblem(files, n).None?
      requires forall k :: 0 <= k < |names| ==> names[k] in files.pending && pending[k] == files.pending[names[k]]
      ensures forall i, j :: 0 <= i < j < |pending| ==> FileBefore(pending[i].identifier, pending[j].identifier)
      ensures forall p :: p in pending <==> p.identifier in files.pending && files.pending[p.identifier] == p
    {
      hide FileBefore, ValidIdentifier;
      forall k | 0 <= k < |names|
        ensures pending[k].identifier == names[k]
      {
        assert names[k] in names;
      }
      forall p: PendingRecord | p.identifier in files.pending && files.pending[p.identifier] == p
        ensures p in pending
      {
        var k :| 0 <= k < |names| && names[k] == p.identifier;
        assert pending[k] in pending;
      }
    }

    /** Two durable steps, the second only if the first was taken. */
    method PerformBoth(a: Effect, b: Effect) returns (ok: bool, ghost done: seq<Effect>)
      modifies this
      ensures done <= [a, b] && log == old(log) + done && files == StateAfter(old(files), done)
      ensures ok <==> done == [a, b]
      ensures faulted == (old(faulted) || !ok)
    {
      hide Apply, StateAfter, Valid;
      done := [];
      TwoSteps(files, a, b);
      ok := Perform(a);
      if ok {
        done := [a];
        ok := Perform(b);
        if ok {
          done := [a, b];
          assert old(log) + [a] + [b] == old(log) + [a, b];
        }
      }
    }

    lemma TwoSteps(s: Files, a: Effect, b: Effect)
      ensures StateAfter(s, []) == s && StateAfter(s, [a]) == Apply(s, a)
      ensures StateAfter(s, [a, b]) == Apply(Apply(s, a), b)
    {
      hide Apply;
      assert [a][..0] == [] && [a, b][..1] == [a];
    }

    /** `save_key_pair`: P12 first, certificate second, each atomically; a failure leaves the steps
        taken before it. */
    method SaveKeyPair(id: Bytes, p12: Bytes, chain: Bytes) returns (r: Result<(), StoreError>, ghost done: seq<Effect>)
      modifies this
      ensures done <= [P12Written(id, p12), CertificateWritten(id, chain)]
      ensures log == old(log) + done && files == StateAfter(old(files), done)
      ensures if ValidIdentifier(id) then r.Ok? <==> |done| == 2 else r == Err(InvalidIdentifier) && done == []
      ensures faulted == (old(faulted) || (r.Err? && ValidIdentifier(id)))
    {
      hide ValidIdentifier, Apply, Valid;
      if !ValidIdentifier(id) {
        return Err(InvalidIdentifier), [];
      }
      var ok;
      ok, done := PerformBoth(P12Written(id, p12), CertificateWritten(id, chain));
      r := if ok then Ok(()) else Err(Io);
    }

    /** `save_pending_key`: the P12 is in place before the record that announces it. */
    method SavePendingKey(key: GeneratedKey, team: Bytes, certificateName: Bytes)
      returns (r: Result<PendingRecord, StoreError>, ghost done: seq<Effect>)
      modifies this
      ensures
        var record := PendingRecord(key.identifier, key.alias, team, certificateName, key.csr);
        && done <= [P12Written(key.identifier, key.p12), PendingWritten(key.identifier, record)]
        && (r.Ok? ==> r.value == record)
      ensures log == old(log) + done && files == StateAfter(old(files), done)
      ensures if ValidIdentifier(key.identifier) then r.Ok? <==> |done| == 2
              else r == Err(InvalidIdentifier) && done == []
      ensures faulted == (old(faulted) || (r.Err? && ValidIdentifier(key.identifier)))
    {
      hide ValidIdentifier, Apply, Valid;
      if !ValidIdentifier(key.identifier) {
        return Err(InvalidIdentifier), [];
      }
      var record := PendingRecord(key.identifier, key.alias, team, certificateName, key.csr);
      var ok;
      ok, done := PerformBoth(P12Written(key.identifier, key.p12), PendingWritten(key.identifier, record));
      r := if ok then Ok(record) else Err(Io);
    }

    /** `clear_pending_key`: removing a record that is not there is no error. */
    method ClearPendingKey(id: Bytes) returns (r: Result<(), StoreError>)
      modifies this
      ensures if r.Ok? then files == Apply(old(files), PendingCleared(id)) && log == old(log) + [PendingCleared(id)]
              else files == old(files) && log == old(log)
      ensures r == Err(InvalidIdentifier) <==> !ValidIdentifier(id)
      ensures faulted == (old(faulted) || (r.Err? && ValidIdentifier(id)))
      ensures old(Valid()) && Allowed(g, old(files), PendingCleared(id)) ==> Valid()
    {
      hide Sound, Follows, StateAfter, Recoverable, ValidIdentifier, Allowed;
      if !ValidIdentifier(id) {
        return Err(InvalidIdentifier);
      }
      var ok := Perform(PendingCleared(id));
      return if ok then Ok(()) else Err(Io);
    }
  }
}
