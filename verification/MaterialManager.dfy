/** Preparing signing materials: the search among local key pairs, and one attempt to obtain a
    certificate and a profile from the remote service. */
module MaterialManager {
  import opened Wrappers
  import opened ByteCodec
  import opened CodeSign
  import opened Identity
  import opened PendingKeys
  import opened MaterialStore

  datatype InvalidReason =
    | PendingPasswordUnavailable
    | CertificateIncomplete
    | ChainDoesNotMatch
    | GenerationFailed
    | MissingId
    | ProfileRejected

  datatype ManagerError =
    | StoreFailure(store: StoreError)
    | IoFailure
    | RemoteFailure
    | InvalidMaterial(reason: InvalidReason)
    | CertificateLimit(count: nat)

  datatype Request = Request(bundle: Bytes, udid: Bytes, now: int, team: Bytes, newPassword: Bytes,
                             certificateName: Bytes)

  /** What an attempt looks at in a certificate record. */
  datatype RemoteCertificate = RemoteCertificate(id: Option<Bytes>, certType: Bytes, url: Bytes)

  /** The answers of the remote service during one attempt, each possibly missing: the certificate
      list, the upload of a CSR under a name, the device of a UDID (whose id may be absent), the
      profile address for certificate, device and bundle, and downloads. */
  datatype Remote = Remote(
    certificates: Option<seq<RemoteCertificate>>,
    upload: (Bytes, Bytes) -> Option<RemoteCertificate>,
    device: Bytes -> Option<Option<Bytes>>,
    provision: (Bytes, Bytes, Bytes) -> Option<Bytes>,
    download: Bytes -> Option<Bytes>)

  /** Profile, bundle, device, leaf certificate and time; the accepted profile's contents. */
  type ProfileCheck = (Bytes, Bytes, Bytes, Bytes, int) -> Option<Bytes>

  /** What the caller supplies: password candidates per P12, candidates for a pending P12 (or
      none if the credential store fails), and which files can be read this time. */
  datatype Caller = Caller(
    validate: ProfileCheck,
    candidates: Bytes -> seq<Bytes>,
    pendingCandidates: Bytes -> Option<seq<Bytes>>,
    readable: Bytes -> bool)

  datatype PreparedMaterials =
    PreparedMaterials(identifier: Bytes, profile: Bytes, password: Bytes, identity: SigningIdentity, provision: Bytes)

  const DEBUG_TYPE: Bytes := [0x31]
  const DEBUG_CERTIFICATE_LIMIT := 3

  // ----- Local search -----

  /** The materials that pair, password and profile make up, if the pair loads and the profile is
      valid for its leaf certificate. */
  function Fit(keys: Keys, caller: Caller, s: Files, request: Request, profile: Bytes, id: Bytes, password: Bytes)
    : Option<PreparedMaterials>
  {
    if id !in s.p12s || id !in s.certificates then None
    else
      var identity := IdentityOf(keys, s.p12s[id], password, s.certificates[id]);
      if identity.Err? then None
      else
        var provision :=
            caller.validate(profile, request.bundle, request.udid, identity.value.certificates[0], request.now);
        if provision.None? then None
        else Some(PreparedMaterials(id, profile, password, identity.value, provision.value))
  }

  function FirstPassword(keys: Keys, caller: Caller, s: Files, request: Request, profile: Bytes, id: Bytes,
                         passwords: seq<Bytes>)
    : Option<PreparedMaterials>
  {
    if passwords == [] then None
    else
      var fit := Fit(keys, caller, s, request, profile, id, passwords[0]);
      if fit.Some? then fit else FirstPassword(keys, caller, s, request, profile, id, passwords[1..])
  }

  function FirstFit(keys: Keys, caller: Caller, s: Files, request: Request, profile: Bytes, names: seq<Bytes>)
    : Option<PreparedMaterials>
  {
    if names == [] then None
    else
      var fit := if caller.readable(names[0])
                 then FirstPassword(keys, caller, s, request, profile, names[0], caller.candidates(names[0])) else None;
      if fit.Some? then fit else FirstFit(keys, caller, s, request, profile, names[1..])
  }

  /** `find_local_materials` over the sorted listing `names`. */
  method FindLocalMaterials(w: Workspace, caller: Caller, request: Request)
    returns (r: Result<Option<PreparedMaterials>, ManagerError>, ghost names: seq<Bytes>)
    modifies w`faulted
    ensures w.faulted == (old(w.faulted) || (r.Err? && ValidIdentifier(request.bundle)))
    ensures r.Ok? && request.bundle in w.files.profiles ==>
      && Lists(names, w.files.p12s.Keys * w.files.certificates.Keys)
      && r.value == FirstFit(w.g.keys, caller, w.files, request, w.files.profiles[request.bundle], names)
    ensures r == Err(StoreFailure(InvalidIdentifier)) <==> !ValidIdentifier(request.bundle)
    ensures ValidIdentifier(request.bundle) && request.bundle !in w.files.profiles ==> r == Ok(None)
    ensures r.Err? ==> r.error == IoFailure || r.error.StoreFailure?
  {
    hide IdentityOf, Fit, ValidIdentifier;
    names := [];
    if !ValidIdentifier(request.bundle) {
      return Err(StoreFailure(InvalidIdentifier)), names;
    }
    if request.bundle !in w.files.profiles {
      return Ok(None), names;
    }
    var ok := w.Access();
    if !ok {
      return Err(IoFailure), names;
    }
    var profile := w.files.profiles[request.bundle];
    var listed := w.ListKeyPairs();
    if listed.Err? {
      return Err(StoreFailure(listed.error)), names;
    }
    names := listed.value;
    ghost var expected := FirstFit(w.g.keys, caller, w.files, request, profile, names);
    for i := 0 to |listed.value|
      invariant w.faulted == old(w.faulted)
      invariant expected == FirstFit(w.g.keys, caller, w.files, request, profile, names[i..])
    {
      var id := listed.value[i];
      if caller.readable(id) {
        var passwords := caller.candidates(id);
        for k := 0 to |passwords|
          invariant w.faulted == old(w.faulted)
          invariant FirstPassword(w.g.keys, caller, w.files, request, profile, id, passwords)
                 == FirstPassword(w.g.keys, caller, w.files, request, profile, id, passwords[k..])
        {
          var fit := TryPair(w, caller, request, profile, id, passwords[k]);
          assert passwords[k..][1..] == passwords[k + 1..];
          if fit.Some? {
            return Ok(fit), names;
          }
        }
        assert passwords[|passwords|..] == [];
      }
      assert names[i..][1..] == names[i + 1..];
    }
    assert names[|names|..] == [];
    return Ok(None), names;
  }

  method TryPair(w: Workspace, caller: Caller, request: Request, profile: Bytes, id: Bytes, password: Bytes)
    returns (r: Option<PreparedMaterials>)
    ensures r == Fit(w.g.keys, caller, w.files, request, profile, id, password)
  {
    if id !in w.files.p12s || id !in w.files.certificates {
      return None;
    }
    var identity := LoadSigningIdentity(w.g.keys, w.files.p12s[id], password, w.files.certificates[id]);
    if identity.Err? {
      return None;
    }
    var leaf := identity.value.certificates[0];
    var provision := caller.validate(profile, request.bundle, request.udid, leaf, request.now);
    if provision.None? {
      return None;
    }
    return Some(PreparedMaterials(id, profile, password, identity.value, provision.value));
  }

  /** The search is exact: its result is the fit at the first place, in sorted-pair and candidate
      order, where any combination of readable pair and candidate fits; no result means that no
      combination does. */
  lemma {:induction false} FirstPasswordExact(keys: Keys, caller: Caller, s: Files, request: Request, profile: Bytes,
                                              id: Bytes, passwords: seq<Bytes>)
    returns (k: nat)
    ensures
      var r := FirstPassword(keys, caller, s, request, profile, id, passwords);
      && k <= |passwords|
      && (forall j :: 0 <= j < k ==> Fit(keys, caller, s, request, profile, id, passwords[j]).None?)
      && (r.Some? <==> k < |passwords|)
      && (k < |passwords| ==> r == Fit(keys, caller, s, request, profile, id, passwords[k]))
  {
    hide Fit;
    k := 0;
    if passwords != [] && Fit(keys, caller, s, request, profile, id, passwords[0]).None? {
      var j := FirstPasswordExact(keys, caller, s, request, profile, id, passwords[1..]);
      k := j + 1;
      forall m | 0 <= m < k
        ensures Fit(keys, caller, s, request, profile, id, passwords[m]).None?
      {
        if m > 0 {
          assert passwords[m] == passwords[1..][m - 1];
        }
      }
    }
  }

  lemma {:induction false} FirstFitExact(keys: Keys, caller: Caller, s: Files, request: Request, profile: Bytes,
                                         names: seq<Bytes>)
    returns (i: nat, k: nat)
    ensures
      var r := FirstFit(keys, caller, s, request, profile, names);
      && i <= |names|
      && (forall j, m :: 0 <= j < i && caller.readable(names[j]) && 0 <= m < |caller.candidates(names[j])| ==>
            Fit(keys, caller, s, request, profile, names[j], caller.candidates(names[j])[m]).None?)
      && (r.Some? <==> i < |names|)
      && (i < |names| ==>
            && caller.readable(names[i]) && k < |caller.candidates(names[i])|
            && r == Fit(keys, caller, s, request, profile, names[i], caller.candidates(names[i])[k])
            && forall m :: 0 <= m < k ==>
                 Fit(keys, caller, s, request, profile, names[i], caller.candidates(names[i])[m]).None?)
  {
    hide Fit, FirstPassword;
    i, k := 0, 0;
    if names != [] {
      if caller.readable(names[0]) {
        k := FirstPasswordExact(keys, caller, s, request, profile, names[0], caller.candidates(names[0]));
      }
      if !caller.readable(names[0]) || k == |caller.candidates(names[0])| {
        var rest;
        rest, k := FirstFitExact(keys, caller, s, request, profile, names[1..]);
        i := rest + 1;
        forall j, m | 0 <= j < i && caller.readable(names[j]) && 0 <= m < |caller.candidates(names[j])|
          ensures Fit(keys, caller, s, request, profile, names[j], caller.candidates(names[j])[m]).None?
        {
          if j > 0 {
            assert names[j] == names[1..][j - 1];
          }
        }
      }
    }
  }

  /** What a fit is: the stored pair loads to its identity, and the profile is valid for the leaf, for this bundle
      and device and at this time. */
  lemma FitExactly(keys: Keys, caller: Caller, s: Files, request: Request, profile: Bytes, id: Bytes, password: Bytes,
                   m: PreparedMaterials)
    ensures Fit(keys, caller, s, request, profile, id, password) == Some(m) <==>
      && id in s.p12s && id in s.certificates
      && IdentityOf(keys, s.p12s[id], password, s.certificates[id]) == Ok(m.identity)
      && m.identity.certificates != []
      && caller.validate(profile, request.bundle, request.udid, m.identity.certificates[0], request.now)
         == Some(m.provision)
      && m.identifier == id && m.profile == profile && m.password == password
  {
    hide IdentityOf;
  }

  /** The stored profile, a stored pair that can be read and an offered password fit. */
  ghost predicate FitsAt(w: Workspace, caller: Caller, request: Request, id: Bytes, password: Bytes)
    reads w`files
  {
    && ValidIdentifier(request.bundle) && request.bundle in w.files.profiles
    && id in w.files.p12s && id in w.files.certificates && caller.readable(id) && password in caller.candidates(id)
    && Fit(w.g.keys, caller, w.files, request, w.files.profiles[request.bundle], id, password).Some?
  }

  ghost predicate FitsLocally(w: Workspace, caller: Caller, request: Request)
    reads w`files
  {
    exists id, password :: FitsAt(w, caller, request, id, password)
  }

  /** The fit of the first pair, in file order, under its first password. */
  ghost predicate IsFirstLocal(w: Workspace, caller: Caller, request: Request, m: PreparedMaterials)
    reads w`files
  {
    var passwords := caller.candidates(m.identifier);
    && FitsAt(w, caller, request, m.identifier, m.password)
    && Fit(w.g.keys, caller, w.files, request, w.files.profiles[request.bundle], m.identifier, m.password) == Some(m)
    && (forall id, password :: FitsAt(w, caller, request, id, password) ==>
          id == m.identifier || FileBefore(m.identifier, id))
    && exists k :: 0 <= k < |passwords| && passwords[k] == m.password
         && forall j :: 0 <= j < k ==> !FitsAt(w, caller, request, m.identifier, passwords[j])
  }

  /** The search finds a fit exactly if there is one, and then the first. */
  lemma LocalExactly(w: Workspace, caller: Caller, request: Request, names: seq<Bytes>)
    requires ValidIdentifier(request.bundle) && request.bundle in w.files.profiles
    requires Lists(names, w.files.p12s.Keys * w.files.certificates.Keys)
    ensures
      var r := FirstFit(w.g.keys, caller, w.files, request, w.files.profiles[request.bundle], names);
      && (r.Some? <==> FitsLocally(w, caller, request))
      && (r.Some? ==> IsFirstLocal(w, caller, request, r.value))
  {
    hide FirstFit, IdentityOf, Fit, FileBefore, ValidIdentifier;
    var profile := w.files.profiles[request.bundle];
    var r := FirstFit(w.g.keys, caller, w.files, request, profile, names);
    var i, k := FirstFitExact(w.g.keys, caller, w.files, request, profile, names);
    forall id, password | FitsAt(w, caller, request, id, password)
      ensures i < |names| && (id == names[i] || FileBefore(names[i], id))
    {
      assert id in w.files.p12s.Keys * w.files.certificates.Keys && id in names;
      var at :| 0 <= at < |names| && names[at] == id;
      var m :| 0 <= m < |caller.candidates(id)| && caller.candidates(id)[m] == password;
      assert Fit(w.g.keys, caller, w.files, request, profile, names[at], caller.candidates(names[at])[m]).Some?;
    }
    if r.Some? {
      FitExactly(w.g.keys, caller, w.files, request, profile, names[i], caller.candidates(names[i])[k], r.value);
      assert FitsAt(w, caller, request, names[i], caller.candidates(names[i])[k]);
    }
  }

  // ----- One remote attempt -----

  /** A local key that a remote certificate may belong to. */
  datatype Candidate = Candidate(identifier: Bytes, p12: Bytes, passwords: seq<Bytes>)

  /** A pending key whose P12 a candidate password opens. */
  datatype Validated = Validated(pending: PendingRecord, p12: Bytes, password: Bytes)

  /** The stored record of the team, with the P12 beside it and a password that opens it. */
  predicate IsPending(keys: Keys, s: Files, team: Bytes, v: Validated) {
    var id := v.pending.identifier;
    && id in s.pending && s.pending[id] == v.pending && v.pending.teamId == team
    && id in s.p12s && s.p12s[id] == v.p12 && keys.openP12(v.p12, v.password).Ok?
  }

  method OwnRecords(listed: seq<PendingRecord>, team: Bytes) returns (own: seq<PendingRecord>)
    requires forall i, j :: 0 <= i < j < |listed| ==> listed[i].identifier != listed[j].identifier
    ensures forall k {:trigger own[k]} :: 0 <= k < |own| ==> own[k] in listed && own[k].teamId == team
    ensures forall p :: p in listed && p.teamId == team ==> p in own
    ensures forall a, b :: 0 <= a < b < |own| ==> own[a].identifier != own[b].identifier
  {
    own := [];
    for i := 0 to |listed|
      invariant forall k {:trigger own[k]} :: 0 <= k < |own| ==> own[k] in listed[..i] && own[k].teamId == team
      invariant forall k :: 0 <= k < i && listed[k].teamId == team ==> listed[k] in own
      invariant forall a, b :: 0 <= a < b < |own| ==> own[a].identifier != own[b].identifier
    {
      assert listed[..i + 1] == listed[..i] + [listed[i]];
      if listed[i].teamId == team {
        own := own + [listed[i]];
      }
    }
    assert listed[..|listed|] == listed;
  }

  /** The credential store still offers the password saved for the team's pending key. */
  predicate SavedPasswordOffered(w: Workspace, caller: Caller, team: Bytes)
    reads w`files
  {
    var id := w.g.identifierOf(team);
    && id in w.files.pending && id in w.files.passwords
    && caller.pendingCandidates(id).Some? && w.files.passwords[id] in caller.pendingCandidates(id).value
  }

  /** The team's pending record, if any, and a password that opens it, before any remote call. It
      is missed only if the saved password is not offered. */
  method ValidatePending(w: Workspace, caller: Caller, team: Bytes)
    returns (r: Result<Option<Validated>, ManagerError>)
    requires w.Valid() && team in w.g.teams
    modifies w`faulted
    ensures old(w.faulted) ==> w.faulted
    ensures r.Err? && !w.faulted ==>
      var id := w.g.identifierOf(team);
      id in w.files.pending && id in w.files.p12s && (!caller.readable(id) || !SavedPasswordOffered(w, caller, team))
    ensures r.Ok? && r.value.Some? ==> IsPending(w.g.keys, w.files, team, r.value.value)
    ensures r.Ok? && r.value.None? ==> w.g.identifierOf(team) !in w.files.pending
    ensures r.Err? ==>
              r.error == IoFailure || r.error.StoreFailure? || r.error == InvalidMaterial(PendingPasswordUnavailable)
    ensures r.Err? && r.error == InvalidMaterial(PendingPasswordUnavailable) ==> !SavedPasswordOffered(w, caller, team)
  {
    hide ValidIdentifier, Follows, StateAfter, FileBefore;
    w.ValidRecoverable();
    NoPendingProblem(w.g, w.files);
    var listed := w.ListPendingKeys();
    if listed.Err? {
      return Err(StoreFailure(listed.error));
    }
    DistinctIdentifiers(listed.value);
    var own := OwnRecords(listed.value, team);
    // The source's error for several records of one team cannot occur.
    assert |own| <= 1 by {
      if |own| > 1 {
        OnePendingPerTeam(w.g, w.files, own[0].identifier, own[1].identifier);
      }
    }
    if |own| == 0 {
      return Ok(None);
    }
    var pending := own[0];
    if !caller.readable(pending.identifier) {
      return Err(IoFailure);
    }
    var p12 := w.files.p12s[pending.identifier];
    var passwords := caller.pendingCandidates(pending.identifier);
    if passwords.None? {
      return Err(InvalidMaterial(PendingPasswordUnavailable));
    }
    for k := 0 to |passwords.value|
      invariant forall j :: 0 <= j < k ==> w.g.keys.openP12(p12, passwords.value[j]).Err?
    {
      if w.g.keys.openP12(p12, passwords.value[k]).Ok? {
        return Ok(Some(Validated(pending, p12, passwords.value[k])));
      }
    }
    return Err(InvalidMaterial(PendingPasswordUnavailable));
  }

  /** What the protocol stores is never found wanting. */
  lemma NoPendingProblem(g: Generator, s: Files)
    requires Recoverable(g, s)
    ensures forall id :: id in s.pending.Keys + s.malformed ==> PendingProblem(s, id).None?
  {
    hide ValidIdentifier, KeyFits;
  }

  lemma DistinctIdentifiers(listed: seq<PendingRecord>)
    requires forall i, j :: 0 <= i < j < |listed| ==> FileBefore(listed[i].identifier, listed[j].identifier)
    ensures forall i, j :: 0 <= i < j < |listed| ==> listed[i].identifier != listed[j].identifier
  {
    hide FileBefore;
    forall i, j | 0 <= i < j < |listed|
      ensures listed[i].identifier != listed[j].identifier
    {
      FileBeforeTotal(listed[i].identifier, listed[j].identifier);
    }
  }

  /** The local key as a candidate: the pending key takes part with its validated password only. */
  function CandidateFor(caller: Caller, s: Files, validated: Option<Validated>, id: Bytes): Candidate
    requires id in s.p12s
  {
    Candidate(id, s.p12s[id],
              if validated.Some? && validated.value.pending.identifier == id then [validated.value.password]
              else caller.candidates(id))
  }

  /** The readable keys of the listing, in its order. */
  function ReadablePairs(caller: Caller, s: Files, pairs: seq<Bytes>): seq<Candidate> {
    if pairs == [] then []
    else
      var init, id := ReadablePairs(caller, s, pairs[..|pairs| - 1]), pairs[|pairs| - 1];
      if caller.readable(id) && id in s.p12s then init + [Candidate(id, s.p12s[id], caller.candidates(id))] else init
  }

  /** The first candidate with the identifier gets the password of `own`, or else `own` comes last. */
  function WithOwn(candidates: seq<Candidate>, own: Candidate): seq<Candidate> {
    if candidates == [] then [own]
    else if candidates[0].identifier == own.identifier then
      [candidates[0].(passwords := own.passwords)] + candidates[1..]
    else [candidates[0]] + WithOwn(candidates[1..], own)
  }

  function CandidatesOf(caller: Caller, s: Files, validated: Option<Validated>, pairs: seq<Bytes>): seq<Candidate> {
    var readable := ReadablePairs(caller, s, pairs);
    if validated.None? then readable
    else
      var v := validated.value;
      WithOwn(readable, Candidate(v.pending.identifier, v.p12, [v.password]))
  }

  /** The two loops over the listed pairs and over the candidates. */
  method GatherCandidates(w: Workspace, caller: Caller, validated: Option<Validated>, pairs: seq<Bytes>)
    returns (candidates: seq<Candidate>)
    ensures candidates == CandidatesOf(caller, w.files, validated, pairs)
  {
    candidates := [];
    for i := 0 to |pairs|
      invariant candidates == ReadablePairs(caller, w.files, pairs[..i])
    {
      assert pairs[..i + 1][..i] == pairs[..i];
      if caller.readable(pairs[i]) && pairs[i] in w.files.p12s {
        candidates := candidates + [Candidate(pairs[i], w.files.p12s[pairs[i]], caller.candidates(pairs[i]))];
      }
    }
    assert pairs[..|pairs|] == pairs;
    if validated.Some? {
      var v := validated.value;
      candidates := PlaceOwn(candidates, Candidate(v.pending.identifier, v.p12, [v.password]));
    }
  }

  method PlaceOwn(candidates: seq<Candidate>, own: Candidate) returns (r: seq<Candidate>)
    ensures r == WithOwn(candidates, own)
  {
    var k := 0;
    while k < |candidates| && candidates[k].identifier != own.identifier
      invariant k <= |candidates|
      invariant WithOwn(candidates, own) == candidates[..k] + WithOwn(candidates[k..], own)
    {
      assert candidates[k..][1..] == candidates[k + 1..];
      k := k + 1;
    }
    if k < |candidates| {
      r := candidates[k := candidates[k].(passwords := own.passwords)];
      assert r == candidates[..k] + ([candidates[k].(passwords := own.passwords)] + candidates[k..][1..]);
    } else {
      assert candidates[k..] == [] && candidates[..k] == candidates;
      r := candidates + [own];
    }
  }

  /** The candidates are exactly the readable listed keys and the pending one. */
  lemma CandidatesExact(keys: Keys, caller: Caller, s: Files, team: Bytes, validated: Option<Validated>,
                        pairs: seq<Bytes>)
    requires StrictlySorted(pairs)
    requires validated.Some? ==> IsPending(keys, s, team, validated.value)
    ensures forall c :: c in CandidatesOf(caller, s, validated, pairs) <==>
              && c.identifier in s.p12s && c == CandidateFor(caller, s, validated, c.identifier)
              && ((c.identifier in pairs && caller.readable(c.identifier))
                  || (validated.Some? && c.identifier == validated.value.pending.identifier))
  {
    hide IsPending, ReadablePairs, WithOwn;
    ReadablePairsExact(caller, s, pairs);
    if validated.Some? {
      PendingParts(keys, s, team, validated.value);
      var v := validated.value;
      WithOwnExact(ReadablePairs(caller, s, pairs), Candidate(v.pending.identifier, v.p12, [v.password]));
    }
  }

  lemma PendingParts(keys: Keys, s: Files, team: Bytes, v: Validated)
    requires IsPending(keys, s, team, v)
    ensures v.pending.identifier in s.p12s && s.p12s[v.pending.identifier] == v.p12
  {
  }

  lemma {:induction false} ReadablePairsExact(caller: Caller, s: Files, pairs: seq<Bytes>)
    requires StrictlySorted(pairs)
    ensures
      var cs := ReadablePairs(caller, s, pairs);
      && (forall c :: c in cs <==> && c.identifier in pairs && caller.readable(c.identifier) && c.identifier in s.p12s
                                   && c == CandidateFor(caller, s, None, c.identifier))
      && (forall i, j :: 0 <= i < j < |cs| ==> FileBefore(cs[i].identifier, cs[j].identifier))
    decreases |pairs|
  {
    hide FileBefore;
    if pairs != [] {
      var init, id := pairs[..|pairs| - 1], pairs[|pairs| - 1];
      assert pairs == init + [id];
      ReadablePairsExact(caller, s, init);
      var cs := ReadablePairs(caller, s, init);
      forall i | 0 <= i < |cs|
        ensures FileBefore(cs[i].identifier, id)
      {
        assert cs[i] in cs;
      }
    }
  }

  /** Among candidates of different keys, only the one of that key is touched. */
  lemma {:induction false} WithOwnExact(candidates: seq<Candidate>, own: Candidate)
    requires forall i, j :: 0 <= i < j < |candidates| ==>
               FileBefore(candidates[i].identifier, candidates[j].identifier)
    requires forall c :: c in candidates && c.identifier == own.identifier ==> c.p12 == own.p12
    ensures forall c :: c in WithOwn(candidates, own) <==>
              c == own || (c in candidates && c.identifier != own.identifier)
  {
    hide FileBefore;
    if candidates != [] {
      var first, rest := candidates[0], candidates[1..];
      assert candidates == [first] + rest;
      assert first in candidates;
      if first.identifier == own.identifier {
        forall c | c in rest
          ensures c.identifier != own.identifier
        {
          FileBeforeTotal(first.identifier, c.identifier);
        }
      } else {
        WithOwnExact(rest, own);
      }
    }
  }

  /** Taking the own key in keeps the places, or puts it behind all others. */
  lemma {:induction false} WithOwnPlaces(candidates: seq<Candidate>, own: Candidate)
    ensures
      var r := WithOwn(candidates, own);
      if exists c :: c in candidates && c.identifier == own.identifier then
        |r| == |candidates| && forall k :: 0 <= k < |r| ==> r[k].identifier == candidates[k].identifier
      else r == candidates + [own]
  {
    if candidates != [] {
      var first, rest := candidates[0], candidates[1..];
      assert candidates == [first] + rest;
      assert first in candidates;
      WithOwnPlaces(rest, own);
    }
  }

  /** The local keys that are tried, in file order: the stored pairs that can be read, each with its offered
      passwords, and the team's pending key with the one that opens it, last if it is no readable pair. */
  ghost predicate AreCandidates(w: Workspace, caller: Caller, team: Bytes, candidates: seq<Candidate>,
                                own: Option<Validated>)
    reads w`files
  {
    && (if own.Some? then IsPending(w.g.keys, w.files, team, own.value)
        else w.g.identifierOf(team) !in w.files.pending)
    && (forall c :: c in candidates <==>
          var id := c.identifier;
          && ((id in w.files.certificates && caller.readable(id))
              || (own.Some? && id == own.value.pending.identifier))
          && id in w.files.p12s && c.p12 == w.files.p12s[id]
          && c.passwords == if own.Some? && id == own.value.pending.identifier then [own.value.password]
                            else caller.candidates(id))
    && (forall i, j :: 0 <= i < j < |candidates| ==>
          FileBefore(candidates[i].identifier, candidates[j].identifier)
          || (own.Some? && j == |candidates| - 1 && candidates[j].identifier == own.value.pending.identifier))
  }

  lemma CandidatesAre(w: Workspace, caller: Caller, team: Bytes, own: Option<Validated>, pairs: seq<Bytes>)
    requires if own.Some? then IsPending(w.g.keys, w.files, team, own.value)
             else w.g.identifierOf(team) !in w.files.pending
    requires Lists(pairs, w.files.p12s.Keys * w.files.certificates.Keys)
    ensures AreCandidates(w, caller, team, CandidatesOf(caller, w.files, own, pairs), own)
  {
    hide IsPending, ReadablePairs, WithOwn, FileBefore;
    CandidatesExact(w.g.keys, caller, w.files, team, own, pairs);
    ReadablePairsExact(caller, w.files, pairs);
    if own.Some? {
      var v := own.value;
      PendingParts(w.g.keys, w.files, team, v);
      WithOwnPlaces(ReadablePairs(caller, w.files, pairs), Candidate(v.pending.identifier, v.p12, [v.password]));
    }
  }

  datatype Selected = Selected(identifier: Bytes, p12: Bytes, chain: Bytes, password: Bytes, identity: SigningIdentity,
                               certificate: RemoteCertificate)

  predicate SelectedLoads(keys: Keys, s: Selected) {
    IdentityOf(keys, s.p12, s.password, s.chain) == Ok(s.identity)
  }

  predicate Usable(certificate: RemoteCertificate) {
    (certificate.certType == [] || certificate.certType == DEBUG_TYPE) && certificate.url != [] && certificate.id.Some?
  }

  /** Debug certificates, and those of no type, with an address and an id. */
  lemma UsableExactly(certificate: RemoteCertificate)
    ensures Usable(certificate) <==>
            certificate.certType in [[], [0x31]] && certificate.url != [] && certificate.id.Some?
  {
  }

  /** The certificate with its downloaded chain, if it loads with that key and password. */
  function Loading(keys: Keys, certificate: RemoteCertificate, chain: Bytes, c: Candidate, password: Bytes)
    : Option<Selected>
  {
    var identity := IdentityOf(keys, c.p12, password, chain);
    if identity.Ok? then Some(Selected(c.identifier, c.p12, chain, password, identity.value, certificate)) else None
  }

  function LoadingPassword(keys: Keys, certificate: RemoteCertificate, chain: Bytes, c: Candidate,
                           passwords: seq<Bytes>)
    : Option<Selected>
  {
    if passwords == [] then None
    else
      var found := Loading(keys, certificate, chain, c, passwords[0]);
      if found.Some? then found else LoadingPassword(keys, certificate, chain, c, passwords[1..])
  }

  function LoadingCandidate(keys: Keys, certificate: RemoteCertificate, chain: Bytes, candidates: seq<Candidate>)
    : Option<Selected>
  {
    if candidates == [] then None
    else
      var found := LoadingPassword(keys, certificate, chain, candidates[0], candidates[0].passwords);
      if found.Some? then found else LoadingCandidate(keys, certificate, chain, candidates[1..])
  }

  function RemoteFit(keys: Keys, download: Bytes -> Option<Bytes>, certificates: seq<RemoteCertificate>,
                     candidates: seq<Candidate>)
    : Result<Option<Selected>, ManagerError>
  {
    if certificates == [] then Ok(None)
    else if !Usable(certificates[0]) || candidates == [] then RemoteFit(keys, download, certificates[1..], candidates)
    else if download(certificates[0].url).None? then Err(RemoteFailure)
    else
      var found := LoadingCandidate(keys, certificates[0], download(certificates[0].url).value, candidates);
      if found.Some? then Ok(found) else RemoteFit(keys, download, certificates[1..], candidates)
  }

  /** The first usable remote certificate whose chain belongs to a local key. */
  method SelectCertificate(keys: Keys, download: Bytes -> Option<Bytes>, certificates: seq<RemoteCertificate>,
                           candidates: seq<Candidate>)
    returns (r: Result<Option<Selected>, ManagerError>)
    ensures r == RemoteFit(keys, download, certificates, candidates)
  {
    hide IdentityOf, LoadingCandidate;
    for i := 0 to |certificates|
      invariant RemoteFit(keys, download, certificates, candidates)
                == RemoteFit(keys, download, certificates[i..], candidates)
    {
      assert certificates[i..][1..] == certificates[i + 1..];
      var certificate := certificates[i];
      if (certificate.certType != [] && certificate.certType != DEBUG_TYPE)
         || certificate.url == [] || certificate.id.None? {
        continue;
      }
      if candidates == [] {
        continue;
      }
      var chain := download(certificate.url);
      if chain.None? {
        return Err(RemoteFailure);
      }
      var found := TryCandidates(keys, certificate, chain.value, candidates);
      if found.Some? {
        return Ok(found);
      }
    }
    assert certificates[|certificates|..] == [];
    return Ok(None);
  }

  method TryCandidates(keys: Keys, certificate: RemoteCertificate, chain: Bytes, candidates: seq<Candidate>)
    returns (r: Option<Selected>)
    ensures r == LoadingCandidate(keys, certificate, chain, candidates)
  {
    hide IdentityOf;
    for c := 0 to |candidates|
      invariant LoadingCandidate(keys, certificate, chain, candidates)
             == LoadingCandidate(keys, certificate, chain, candidates[c..])
    {
      var passwords := candidates[c].passwords;
      for k := 0 to |passwords|
        invariant LoadingPassword(keys, certificate, chain, candidates[c], passwords)
               == LoadingPassword(keys, certificate, chain, candidates[c], passwords[k..])
      {
        assert passwords[k..][1..] == passwords[k + 1..];
        var identity := LoadSigningIdentity(keys, candidates[c].p12, passwords[k], chain);
        if identity.Ok? {
          return Some(Selected(candidates[c].identifier, candidates[c].p12, chain, passwords[k], identity.value,
                               certificate));
        }
      }
      assert passwords[|passwords|..] == [];
      assert candidates[c..][1..] == candidates[c + 1..];
    }
    assert candidates[|candidates|..] == [];
    return None;
  }

  /** No password of the candidate loads the certificate. */
  predicate NoneLoads(keys: Keys, certificate: RemoteCertificate, chain: Bytes, c: Candidate, passwords: seq<Bytes>) {
    forall k :: 0 <= k < |passwords| ==> Loading(keys, certificate, chain, c, passwords[k]).None?
  }

  lemma {:induction false} LoadingPasswordExact(keys: Keys, certificate: RemoteCertificate, chain: Bytes, c: Candidate,
                                                passwords: seq<Bytes>)
    returns (k: nat)
    ensures
      var r := LoadingPassword(keys, certificate, chain, c, passwords);
      && k <= |passwords| && NoneLoads(keys, certificate, chain, c, passwords[..k])
      && (r.Some? <==> k < |passwords|)
      && (r.Some? ==> r == Loading(keys, certificate, chain, c, passwords[k]))
  {
    hide Loading;
    k := 0;
    if passwords != [] && Loading(keys, certificate, chain, c, passwords[0]).None? {
      var j := LoadingPasswordExact(keys, certificate, chain, c, passwords[1..]);
      k := j + 1;
      assert passwords[..k] == [passwords[0]] + passwords[1..][..j];
    }
  }

  lemma {:induction false} LoadingCandidateExact(keys: Keys, certificate: RemoteCertificate, chain: Bytes,
                                                 candidates: seq<Candidate>)
    returns (j: nat, k: nat)
    ensures
      var r := LoadingCandidate(keys, certificate, chain, candidates);
      && j <= |candidates|
      && (forall c :: c in candidates[..j] ==> NoneLoads(keys, certificate, chain, c, c.passwords))
      && (r.Some? <==> j < |candidates|)
      && (r.Some? ==>
            && k < |candidates[j].passwords|
            && r == Loading(keys, certificate, chain, candidates[j], candidates[j].passwords[k])
            && NoneLoads(keys, certificate, chain, candidates[j], candidates[j].passwords[..k]))
  {
    hide Loading, LoadingPassword, NoneLoads;
    j, k := 0, 0;
    if candidates != [] {
      k := LoadingPasswordExact(keys, certificate, chain, candidates[0], candidates[0].passwords);
      var all := candidates[0].passwords;
      assert all[..|all|] == all;
      if k == |all| {
        var rest;
        rest, k := LoadingCandidateExact(keys, certificate, chain, candidates[1..]);
        j := rest + 1;
        assert candidates[..j] == [candidates[0]] + candidates[1..][..rest];
      }
    }
  }

  /** A usable certificate that was downloaded and loads with no candidate. */
  predicate PassedOver(keys: Keys, download: Bytes -> Option<Bytes>, certificate: RemoteCertificate,
                       candidates: seq<Candidate>)
  {
    Usable(certificate) && candidates != [] ==>
      && download(certificate.url).Some?
      && forall c :: c in candidates ==> NoneLoads(keys, certificate, download(certificate.url).value, c, c.passwords)
  }

  /** The choice among remote certificates is exact: everything before the chosen certificate,
      candidate and password does not load; no choice means that no combination loads; and it fails
      exactly at the first missing download. */
  lemma {:induction false} RemoteFitExact(keys: Keys, download: Bytes -> Option<Bytes>,
                                          certificates: seq<RemoteCertificate>, candidates: seq<Candidate>)
    returns (i: nat, j: nat, k: nat)
    ensures
      var r := RemoteFit(keys, download, certificates, candidates);
      && i <= |certificates|
      && (forall c :: c in certificates[..i] ==> PassedOver(keys, download, c, candidates))
      && (r == Ok(None) <==> i == |certificates|)
      && (i < |certificates| ==>
            && Usable(certificates[i]) && candidates != []
            && (r.Err? <==> download(certificates[i].url).None?)
            && (r.Err? ==> r.error == RemoteFailure)
            && (r.Ok? ==>
                  && j < |candidates| && k < |candidates[j].passwords|
                  && var chain := download(certificates[i].url).value;
                     && r.value == Loading(keys, certificates[i], chain, candidates[j], candidates[j].passwords[k])
                     && (forall c :: c in candidates[..j] ==> NoneLoads(keys, certificates[i], chain, c, c.passwords))
                     && NoneLoads(keys, certificates[i], chain, candidates[j], candidates[j].passwords[..k])))
  {
    hide Loading, LoadingCandidate, NoneLoads, Usable;
    i, j, k := 0, 0, 0;
    if certificates != [] {
      var first := certificates[0];
      var considered := Usable(first) && candidates != [];
      if considered && download(first.url).Some? {
        j, k := LoadingCandidateExact(keys, first, download(first.url).value, candidates);
        assert candidates[..|candidates|] == candidates;
      }
      if !considered || (download(first.url).Some? && j == |candidates|) {
        assert PassedOver(keys, download, first, candidates);
        var rest;
        rest, j, k := RemoteFitExact(keys, download, certificates[1..], candidates);
        i := rest + 1;
        assert certificates[..i] == [first] + certificates[1..][..rest];
      }
    }
  }

  method Nonce() returns (n: nat) {
    n := *;
  }

  method GenerateKey(g: Generator, team: Bytes, password: Bytes) returns (r: Option<GeneratedKey>)
    requires Sound(g)
    ensures r.Some? ==> GenerationSound(g, team, password, r.value) && g.keys.openP12(r.value.p12, password).Ok?
    ensures r.None? ==> exists nonce :: GeneratedBy(g, team, password, nonce).None?
  {
    var nonce := Nonce();
    r := GeneratedBy(g, team, password, nonce);
  }

  /** Errors that end an attempt before it changes anything. */
  predicate EarlyError(e: ManagerError) {
    e.CertificateLimit? || e == InvalidMaterial(PendingPasswordUnavailable)
  }

  // ----- When nothing fails -----

  /** Generation never fails for this request. */
  ghost predicate AlwaysGenerates(g: Generator, request: Request) {
    forall nonce :: GeneratedBy(g, request.team, request.newPassword, nonce).Some?
  }

  /** The upload is answered with a certificate of the key, and its chain can be downloaded. */
  predicate Certified(keys: Keys, remote: Remote, p12: Bytes, password: Bytes, csr: Bytes, name: Bytes) {
    var c := remote.upload(csr, name);
    && c.Some? && c.value.id.Some? && c.value.url != []
    && remote.download(c.value.url).Some?
    && IdentityOf(keys, p12, password, remote.download(c.value.url).value).Ok?
  }

  /** The key of a CSR that was uploaded: the team's own, opened by the password, and fitting the CSR. */
  ghost predicate AskedFor(g: Generator, team: Bytes, v: Validated) {
    && v.pending.teamId == team && g.keys.openP12(v.p12, v.password).Ok?
    && exists saved :: KeyFits(g, v.p12, saved, v.pending.csr)
  }

  /** The upload of this key's CSR was not answered with a certificate of the key. */
  predicate Refused(keys: Keys, remote: Remote, v: Validated) {
    !Certified(keys, remote, v.p12, v.password, v.pending.csr, v.pending.certificateName)
  }

  /** The profile issued for certificate and device is valid for the leaf. */
  predicate ProfileIssued(caller: Caller, remote: Remote, request: Request, device: Bytes, id: Bytes, leaf: Bytes) {
    var url := remote.provision(id, device, request.bundle);
    && url.Some? && remote.download(url.value).Some?
    && caller.validate(remote.download(url.value).value, request.bundle, request.udid, leaf, request.now).Some?
  }

  /** The service knows the device and issues a valid profile for this very certificate. */
  predicate IssuesFor(caller: Caller, remote: Remote, request: Request, s: Selected) {
    var device := remote.device(request.udid);
    && device.Some? && device.value.Some?
    && s.certificate.id.Some? && s.identity.certificates != []
    && ProfileIssued(caller, remote, request, device.value.value, s.certificate.id.value, s.identity.certificates[0])
  }

  /** The certificate list is there, and with it every chain an attempt may look at. */
  predicate ListsCertificates(remote: Remote) {
    remote.certificates.Some? &&
    forall c :: c in remote.certificates.value && Usable(c) ==> remote.download(c.url).Some?
  }

  /** One of the requests the attempt did send was not answered as it should be. */
  predicate ServiceFailed(keys: Keys, caller: Caller, remote: Remote, request: Request, asked: Option<Validated>,
                          used: Option<Selected>)
  {
    || !ListsCertificates(remote)
    || (asked.Some? && Refused(keys, remote, asked.value))
    || (used.Some? && !IssuesFor(caller, remote, request, used.value))
  }

  /** The stored keys can be used, and the saved password of a pending one is still offered. */
  ghost predicate Accessible(w: Workspace, caller: Caller, request: Request)
    reads w`files
  {
    && ValidIdentifier(request.bundle)
    && (forall id :: id in w.files.p12s ==> ValidIdentifier(id) && caller.readable(id))
    && (w.g.identifierOf(request.team) in w.files.pending ==> SavedPasswordOffered(w, caller, request.team))
  }

  /** The profile the service issues for the certificate on the requested device. */
  predicate IssuedProfile(remote: Remote, request: Request, s: Selected, profile: Bytes) {
    var device := remote.device(request.udid);
    && device.Some? && device.value.Some? && s.certificate.id.Some?
    && var url := remote.provision(s.certificate.id.value, device.value.value, request.bundle);
       url.Some? && remote.download(url.value) == Some(profile)
  }

  /** The certificate is the answer to the upload for this key, its chain is downloaded, and the key is unchanged. */
  predicate Answered(remote: Remote, v: Validated, s: Selected) {
    && remote.upload(v.pending.csr, v.pending.certificateName) == Some(s.certificate)
    && remote.download(s.certificate.url) == Some(s.chain) && s.p12 == v.p12 && s.password == v.password
    && s.identifier == v.pending.identifier
  }

  /** From that step on at most one CSR was uploaded, or none. */
  ghost predicate UploadsAtMost(log: seq<Effect>, from: nat, count: nat) {
    && (count == 0 ==> forall i :: from <= i < |log| ==> !log[i].Uploaded?)
    && (count == 1 ==>
        forall i, j :: from <= i < |log| && from <= j < |log| && log[i].Uploaded? && log[j].Uploaded? ==> i == j)
  }

  /** The team's pending record, taken over or created: key and password are saved before the
      record that announces them. */
  method EnsurePending(w: Workspace, request: Request, validated: Option<Validated>)
    returns (r: Result<Validated, ManagerError>)
    requires w.Valid() && request.team in w.g.teams
    requires validated.Some? ==> IsPending(w.g.keys, w.files, request.team, validated.value)
    requires validated.None? ==> w.g.identifierOf(request.team) !in w.files.pending
    modifies w
    ensures w.Valid() && old(w.log) <= w.log
    ensures r.Ok? ==> IsPending(w.g.keys, w.files, request.team, r.value)
    ensures r.Ok? ==> w.g.identifierOf(request.team) == r.value.pending.identifier
    ensures r.Ok? && validated.Some? ==> r.value == validated.value && w.log == old(w.log)
    ensures r.Ok? && validated.None? ==>
      r.value.pending.certificateName == request.certificateName && r.value.password == request.newPassword
    ensures UploadsAtMost(w.log, |old(w.log)|, 0)
    ensures r.Err? ==> !EarlyError(r.error)
    ensures old(w.faulted) ==> w.faulted
    ensures r.Err? ==> validated.None? && (w.faulted || !AlwaysGenerates(w.g, request))
  {
    hide ValidIdentifier, Follows, StateAfter, KeyFits;
    if validated.Some? {
      w.ValidRecoverable();
      return Ok(validated.value);
    }
    var generated := GenerateKey(w.g, request.team, request.newPassword);
    if generated.None? {
      return Err(InvalidMaterial(GenerationFailed));
    }
    var key := generated.value;
    var ok := w.Perform(Generated(request.team));
    if !ok {
      return Err(InvalidMaterial(GenerationFailed));
    }
    ok := w.Perform(PasswordSaved(key.identifier, request.newPassword));
    if !ok {
      return Err(IoFailure);
    }
    var pending := StorePending(w, key, request);
    if pending.Err? {
      return Err(StoreFailure(pending.error));
    }
    return Ok(Validated(pending.value, key.p12, request.newPassword));
  }

  /** The generated key and its record, under the password saved before. */
  method StorePending(w: Workspace, key: GeneratedKey, request: Request) returns (r: Result<PendingRecord, StoreError>)
    requires w.Valid() && request.team in w.g.teams
    requires GenerationSound(w.g, request.team, request.newPassword, key)
    requires key.identifier !in w.files.pending
    requires key.identifier in w.files.passwords && w.files.passwords[key.identifier] == request.newPassword
    modifies w
    ensures w.Valid() && old(w.log) <= w.log && SinceIsQuiet(w.log, |old(w.log)|)
    ensures w.faulted == (old(w.faulted) || r.Err?)
    ensures r.Ok? ==>
      && r.value == PendingRecord(key.identifier, key.alias, request.team, request.certificateName, key.csr)
      && key.identifier in w.files.pending && w.files.pending[key.identifier] == r.value
      && key.identifier in w.files.p12s && w.files.p12s[key.identifier] == key.p12
  {
    hide ValidIdentifier, Follows, StateAfter, KeyFits, Recoverable, Sound;
    ghost var record := PendingRecord(key.identifier, key.alias, request.team, request.certificateName, key.csr);
    ghost var before, log0 := w.files, w.log;
    ghost var steps := [P12Written(key.identifier, key.p12), PendingWritten(key.identifier, record)];
    TwoAllowed(w.g, before, steps[0], steps[1]);
    ghost var done;
    r, done := w.SavePendingKey(key, request.team, request.certificateName);
    FollowsPrefix(w.g, before, steps, done);
    w.StaysValid(before, log0, done);
    w.TwoSteps(before, steps[0], steps[1]);
    assert r.Ok? ==> done == steps;
  }

  lemma TwoAllowed(g: Generator, s: Files, a: Effect, b: Effect)
    requires Allowed(g, s, a) && Allowed(g, Apply(s, a), b)
    ensures Follows(g, s, [a, b])
  {
    hide Allowed, Apply;
    var es := [a, b];
    assert es[..0] == [] && es[..1] == [a] && [a][..0] == [];
  }

  /** The pending key, or a new one under the requested name and password. */
  predicate IsOwn(request: Request, validated: Option<Validated>, v: Validated) {
    if validated.Some? then v == validated.value
    else v.pending.certificateName == request.certificateName && v.password == request.newPassword
  }

  /** Uploads the pending CSR and stores the certificate pair before the record is cleared. */
  method CertifyPending(w: Workspace, remote: Remote, request: Request, validated: Option<Validated>)
    returns (r: Result<Selected, ManagerError>, ghost asked: Option<Validated>)
    requires w.Valid() && request.team in w.g.teams
    requires validated.Some? ==> IsPending(w.g.keys, w.files, request.team, validated.value)
    requires validated.None? ==> w.g.identifierOf(request.team) !in w.files.pending
    modifies w
    ensures w.Valid() && old(w.log) <= w.log
    ensures r.Ok? ==> SelectedLoads(w.g.keys, r.value) && Stored(w.files, r.value)
    ensures r.Ok? ==> r.value.identifier == w.g.identifierOf(request.team) && r.value.certificate.id.Some?
    ensures UploadsAtMost(w.log, |old(w.log)|, 1)
    ensures r.Err? ==> !EarlyError(r.error)
    ensures old(w.faulted) ==> w.faulted
    ensures asked.Some? ==> AskedFor(w.g, request.team, asked.value) && IsOwn(request, validated, asked.value)
    ensures asked.Some? && !w.faulted ==> UploadLogged(w.log, |old(w.log)|, request.team, asked.value)
    ensures r.Ok? ==> asked.Some? && Answered(remote, asked.value, r.value)
    ensures r.Err? && !w.faulted ==>
      || (validated.None? && !AlwaysGenerates(w.g, request))
      || (asked.Some? && Refused(w.g.keys, remote, asked.value))
  {
    hide ValidIdentifier, Follows, StateAfter, Sound, Recoverable, IdentityOf, AlwaysGenerates, Refused;
    asked := None;
    var ensured := EnsurePending(w, request, validated);
    if ensured.Err? {
      return Err(ensured.error), asked;
    }
    PendingKeyFits(w, request.team, ensured.value);
    asked := Some(ensured.value);
    r := UploadPending(w, remote, request, ensured.value);
  }

  /** From that step on the CSR of this key was uploaded under its name. */
  ghost predicate UploadLogged(log: seq<Effect>, from: nat, team: Bytes, v: Validated) {
    exists i :: from <= i < |log| && log[i] == Uploaded(team, v.pending.csr, v.pending.certificateName)
  }

  method UploadPending(w: Workspace, remote: Remote, request: Request, v: Validated)
    returns (r: Result<Selected, ManagerError>)
    requires w.Valid() && IsPending(w.g.keys, w.files, request.team, v)
    requires w.g.identifierOf(request.team) == v.pending.identifier
    modifies w
    ensures w.Valid() && old(w.log) <= w.log
    ensures r.Ok? ==> SelectedLoads(w.g.keys, r.value) && Stored(w.files, r.value)
    ensures r.Ok? ==> r.value.identifier == w.g.identifierOf(request.team) && r.value.certificate.id.Some?
    ensures UploadsAtMost(w.log, |old(w.log)|, 1)
    ensures r.Err? ==> !EarlyError(r.error)
    ensures old(w.faulted) ==> w.faulted
    ensures !w.faulted ==> UploadLogged(w.log, |old(w.log)|, request.team, v)
    ensures r.Ok? ==> Answered(remote, v, r.value)
    ensures r.Err? && !w.faulted ==> Refused(w.g.keys, remote, v)
  {
    hide ValidIdentifier, Follows, StateAfter, Sound, Recoverable, IdentityOf;
    PendingKeyFits(w, request.team, v);
    ghost var from := |w.log|;
    var sent := w.Perform(Uploaded(request.team, v.pending.csr, v.pending.certificateName));
    assert sent ==> w.log[from] == Uploaded(request.team, v.pending.csr, v.pending.certificateName);
    var answer := remote.upload(v.pending.csr, v.pending.certificateName);
    if !sent || answer.None? {
      return Err(RemoteFailure);
    }
    var certificate := answer.value;
    if certificate.id.None? || certificate.url == [] {
      return Err(InvalidMaterial(CertificateIncomplete));
    }
    var chain := remote.download(certificate.url);
    if chain.None? {
      return Err(RemoteFailure);
    }
    var identity := LoadSigningIdentity(w.g.keys, v.p12, v.password, chain.value);
    if identity.Err? {
      return Err(InvalidMaterial(ChainDoesNotMatch));
    }
    var selected := Selected(v.pending.identifier, v.p12, chain.value, v.password, identity.value, certificate);
    r := StorePair(w, selected);
  }

  /** The CSR of a pending record is one of its own key. */
  lemma PendingKeyFits(w: Workspace, team: Bytes, v: Validated)
    requires w.Valid() && IsPending(w.g.keys, w.files, team, v)
    ensures ValidIdentifier(v.pending.identifier) && AskedFor(w.g, team, v)
  {
    hide ValidIdentifier, Follows, StateAfter, KeyFits, Sound;
    w.ValidRecoverable();
    assert KeyFits(w.g, v.p12, w.files.passwords[v.pending.identifier], v.pending.csr);
  }

  /** The pair is in the directory as selected, and no longer pending. */
  predicate Stored(s: Files, selected: Selected) {
    && selected.identifier in s.p12s && s.p12s[selected.identifier] == selected.p12
    && selected.identifier in s.certificates && s.certificates[selected.identifier] == selected.chain
    && selected.identifier !in s.pending
  }

  method StorePair(w: Workspace, selected: Selected) returns (r: Result<Selected, ManagerError>)
    requires w.Valid() && SelectedLoads(w.g.keys, selected)
    requires selected.identifier in w.files.p12s && w.files.p12s[selected.identifier] == selected.p12
    modifies w
    ensures w.Valid() && old(w.log) <= w.log
    ensures SinceIsQuiet(w.log, |old(w.log)|)
    ensures r.Ok? ==> r.value == selected && Stored(w.files, selected)
    ensures r.Err? ==> !EarlyError(r.error)
    ensures w.faulted == (old(w.faulted) || (r.Err? && ValidIdentifier(selected.identifier)))
  {
    hide ValidIdentifier, Follows, StateAfter, Sound, Recoverable, IdentityOf;
    ghost var before, log0 := w.files, w.log;
    ghost var steps :=
        [P12Written(selected.identifier, selected.p12), CertificateWritten(selected.identifier, selected.chain)];
    assert IdentityOf(w.g.keys, Apply(before, steps[0]).p12s[selected.identifier], selected.password,
                      selected.chain).Ok?;
    TwoAllowed(w.g, before, steps[0], steps[1]);
    var saved, done := w.SaveKeyPair(selected.identifier, selected.p12, selected.chain);
    FollowsPrefix(w.g, before, steps, done);
    w.StaysValid(before, log0, done);
    if saved.Err? {
      return Err(StoreFailure(saved.error));
    }
    w.TwoSteps(before, steps[0], steps[1]);
    assert done == steps;
    assert PairLoads(w.g, w.files, selected.identifier, selected.password);
    var cleared := w.ClearPendingKey(selected.identifier);
    if cleared.Err? {
      return Err(StoreFailure(cleared.error));
    }
    return Ok(selected);
  }

  /** The materials are the selected pair with the issued profile. */
  predicate IsPreparedFrom(remote: Remote, request: Request, s: Selected, m: PreparedMaterials) {
    && m.identifier == s.identifier && m.password == s.password && m.identity == s.identity
    && IssuedProfile(remote, request, s, m.profile)
  }

  /** Device, provision and profile; the profile is stored before it is validated. */
  method ObtainProfile(w: Workspace, caller: Caller, remote: Remote, request: Request, selected: Selected)
    returns (r: Result<PreparedMaterials, ManagerError>)
    requires w.Valid() && SelectedLoads(w.g.keys, selected) && Stored(w.files, selected)
    modifies w
    ensures w.Valid() && old(w.log) <= w.log
    ensures SinceIsQuiet(w.log, |old(w.log)|)
    ensures r.Ok? ==> Delivered(w, caller, request, r.value) && r.value.identifier !in w.files.pending
    ensures r.Ok? ==> IsPreparedFrom(remote, request, selected, r.value)
    ensures r.Err? ==> !EarlyError(r.error)
    ensures old(w.faulted) ==> w.faulted
    ensures r.Err? && !w.faulted && selected.certificate.id.Some? && ValidIdentifier(request.bundle) ==>
              !IssuesFor(caller, remote, request, selected)
    ensures Stored(w.files, selected)
  {
    hide ValidIdentifier, Follows, StateAfter, Sound, Recoverable, IdentityOf;
    if selected.certificate.id.None? {
      return Err(InvalidMaterial(MissingId));
    }
    var device := remote.device(request.udid);
    if device.None? {
      return Err(RemoteFailure);
    }
    if device.value.None? {
      return Err(InvalidMaterial(MissingId));
    }
    var leaf := selected.identity.certificates[0];
    var url := remote.provision(selected.certificate.id.value, device.value.value, request.bundle);
    if url.None? {
      return Err(RemoteFailure);
    }
    var profile := remote.download(url.value);
    if profile.None? {
      return Err(RemoteFailure);
    }
    if !ValidIdentifier(request.bundle) {
      return Err(StoreFailure(InvalidIdentifier));
    }
    var ok := w.Perform(ProfileWritten(request.bundle, profile.value));
    if !ok {
      return Err(StoreFailure(Io));
    }
    var provision := caller.validate(profile.value, request.bundle, request.udid, leaf, request.now);
    if provision.None? {
      return Err(InvalidMaterial(ProfileRejected));
    }
    return Ok(PreparedMaterials(selected.identifier, profile.value, selected.password, selected.identity,
                                provision.value));
  }

  /** The delivered materials are what is stored: the stored pair loads under the delivered
      password to the delivered identity, and the stored profile is valid for its leaf. */
  predicate Delivered(w: Workspace, caller: Caller, request: Request, m: PreparedMaterials)
    reads w`files
  {
    && request.bundle in w.files.profiles && w.files.profiles[request.bundle] == m.profile
    && Fit(w.g.keys, caller, w.files, request, m.profile, m.identifier, m.password) == Some(m)
  }

  /** Certificates that count towards the quota. */
  function DebugCount(certificates: seq<RemoteCertificate>): nat {
    |set i | 0 <= i < |certificates| && certificates[i].certType == DEBUG_TYPE|
  }

  lemma DebugCountSteps(certificates: seq<RemoteCertificate>, c: RemoteCertificate)
    ensures DebugCount([]) == 0
    ensures DebugCount(certificates + [c]) == DebugCount(certificates) + if c.certType == [0x31] then 1 else 0
  {
    var n, all := |certificates|, certificates + [c];
    var before := set i | 0 <= i < n && certificates[i].certType == DEBUG_TYPE;
    var after := set i | 0 <= i < n + 1 && all[i].certType == DEBUG_TYPE;
    assert after == if c.certType == [0x31] then before + {n} else before;
  }

  method CountDebug(certificates: seq<RemoteCertificate>) returns (count: nat)
    ensures count == DebugCount(certificates)
  {
    count := 0;
    for i := 0 to |certificates|
      invariant count == |set k | 0 <= k < i && certificates[k].certType == DEBUG_TYPE|
    {
      ghost var before := set k | 0 <= k < i && certificates[k].certType == DEBUG_TYPE;
      ghost var after := set k | 0 <= k < i + 1 && certificates[k].certType == DEBUG_TYPE;
      if certificates[i].certType == DEBUG_TYPE {
        count := count + 1;
        assert after == before + {i};
      } else {
        assert after == before;
      }
    }
  }

  /** The choice among the listed certificates for these candidates. */
  ghost predicate Chosen(w: Workspace, caller: Caller, remote: Remote, team: Bytes, candidates: seq<Candidate>,
                         chosen: Option<Selected>)
    reads w`files
  {
    && (exists own :: AreCandidates(w, caller, team, candidates, own))
    && remote.certificates.Some?
    && RemoteFit(w.g.keys, remote.download, remote.certificates.value, candidates) == Ok(chosen)
  }

  /** The remote certificate to use: one that belongs to a local key, or none while the quota
      leaves room for another. Nothing has been changed up to here. */
  method ChooseCertificate(w: Workspace, caller: Caller, remote: Remote, request: Request)
    returns (r: Result<Option<Selected>, ManagerError>, validated: Option<Validated>, ghost candidates: seq<Candidate>)
    requires w.Valid() && request.team in w.g.teams
    modifies w`faulted
    ensures old(w.faulted) ==> w.faulted
    ensures r.Err? && !w.faulted && Accessible(w, caller, request) ==>
              r.error.CertificateLimit? || !ListsCertificates(remote)
    ensures r.Ok? ==> (if validated.Some? then IsPending(w.g.keys, w.files, request.team, validated.value)
                       else w.g.identifierOf(request.team) !in w.files.pending)
    ensures r.Ok? ==>
      && AreCandidates(w, caller, request.team, candidates, validated)
      && Chosen(w, caller, remote, request.team, candidates, r.value)
      && (r.value.None? ==> DebugCount(remote.certificates.value) < 3)
    ensures r.Err? && r.error.CertificateLimit? ==>
      && Chosen(w, caller, remote, request.team, candidates, None)
      && r.error.count == DebugCount(remote.certificates.value) >= 3
    ensures r.Err? && r.error == InvalidMaterial(PendingPasswordUnavailable) ==>
              !SavedPasswordOffered(w, caller, request.team)
  {
    hide ValidIdentifier, Follows, StateAfter, Sound, Recoverable, FileBefore, RemoteFit, DebugCount, KeyFits,
         CandidatesOf, AreCandidates;
    validated, candidates := None, [];
    var pairs := w.ListKeyPairs();
    if pairs.Err? {
      return Err(StoreFailure(pairs.error)), validated, candidates;
    }
    var pending := ValidatePending(w, caller, request.team);
    if pending.Err? {
      return Err(pending.error), validated, candidates;
    }
    validated := pending.value;
    var keys := GatherCandidates(w, caller, validated, pairs.value);
    CandidatesAre(w, caller, request.team, validated, pairs.value);
    candidates := keys;
    if remote.certificates.None? {
      return Err(RemoteFailure), validated, candidates;
    }
    var debugCount := CountDebug(remote.certificates.value);
    var selected := SelectCertificate(w.g.keys, remote.download, remote.certificates.value, keys);
    var i, j, k := RemoteFitExact(w.g.keys, remote.download, remote.certificates.value, keys);
    assert i < |remote.certificates.value| ==> remote.certificates.value[i] in remote.certificates.value;
    if selected.Ok? && selected.value.None? && debugCount >= DEBUG_CERTIFICATE_LIMIT {
      return Err(CertificateLimit(debugCount)), validated, candidates;
    }
    return selected, validated, candidates;
  }

  /** A chosen certificate loads with the P12 of its own local key. */
  lemma ChosenLoads(w: Workspace, caller: Caller, remote: Remote, team: Bytes, validated: Option<Validated>,
                    candidates: seq<Candidate>)
    requires remote.certificates.Some? && AreCandidates(w, caller, team, candidates, validated)
    ensures
      var r := RemoteFit(w.g.keys, remote.download, remote.certificates.value, candidates);
      r.Ok? && r.value.Some? ==>
        && SelectedLoads(w.g.keys, r.value.value) && Usable(r.value.value.certificate)
        && r.value.value.identifier in w.files.p12s && w.files.p12s[r.value.value.identifier] == r.value.value.p12
  {
    hide RemoteFit, IdentityOf, FileBefore, IsPending;
    var i, j, k := RemoteFitExact(w.g.keys, remote.download, remote.certificates.value, candidates);
    assert j < |candidates| ==> candidates[j] in candidates;
  }

  /** `prepare_materials_with_api`: whatever the remote service answers and wherever a step fails,
      only allowed steps are taken. A success delivers stored, matching and valid materials, which
      are pending no more unless they were found locally. An attempt uploads at most one CSR, and
      none if the certificate quota is full; that, or a pending key whose saved password is not
      offered, ends the attempt before any step. If something stored fits, the first fit is returned and the
      service is not used, whatever it would answer; otherwise a certificate of a local key is used if the service
      lists one, and a CSR is uploaded only if it lists none and the quota leaves room. Progress: whatever
      earlier attempts left behind, an attempt in which nothing fails delivers, unless the quota is full or
      the service fails one of the requests the attempt sends: the list with its chains, the upload of the
      CSR `asked` for, or device and profile for the certificate `used`. */
  method PrepareMaterials(w: Workspace, caller: Caller, remote: Remote, request: Request)
    returns (r: Result<PreparedMaterials, ManagerError>, ghost asked: Option<Validated>, ghost used: Option<Selected>,
             ghost candidates: seq<Candidate>)
    requires w.Valid() && request.team in w.g.teams
    modifies w
    ensures w.Valid() && old(w.log) <= w.log
    ensures r.Ok? ==> Delivered(w, caller, request, r.value)
    ensures old(FitsLocally(w, caller, request)) ==>
      && w.log == old(w.log) && asked.None? && used.None?
      && if r.Ok? then old(IsFirstLocal(w, caller, request, r.value)) else w.faulted
    ensures r.Ok? && !old(FitsLocally(w, caller, request)) ==>
      used.Some? && IsPreparedFrom(remote, request, used.value, r.value)
    ensures used.Some? && asked.Some? ==> Answered(remote, asked.value, used.value)
    ensures used.Some? && asked.None? ==> old(Chosen(w, caller, remote, request.team, candidates, used))
    ensures asked.Some? ==>
      old(Chosen(w, caller, remote, request.team, candidates, None)) && DebugCount(remote.certificates.value) < 3
    ensures asked.Some? ==>
      var id := w.g.identifierOf(request.team);
      if id in old(w.files.pending) then asked.value.pending == old(w.files.pending)[id]
      else asked.value.pending.certificateName == request.certificateName
    ensures r.Ok? ==> w.log == old(w.log) || r.value.identifier !in w.files.pending
    ensures UploadsAtMost(w.log, |old(w.log)|, 1)
    ensures remote.certificates.Some? && DebugCount(remote.certificates.value) >= 3 ==>
              SinceIsQuiet(w.log, |old(w.log)|)
    ensures r.Err? && EarlyError(r.error) ==> w.log == old(w.log)
    ensures r.Err? && r.error.CertificateLimit? ==>
      && old(Chosen(w, caller, remote, request.team, candidates, None))
      && r.error.count == DebugCount(remote.certificates.value) >= 3
    ensures r.Err? && r.error == InvalidMaterial(PendingPasswordUnavailable) ==>
      !old(SavedPasswordOffered(w, caller, request.team))
    ensures asked.Some? ==> AskedFor(w.g, request.team, asked.value)
    ensures asked.Some? && !w.faulted ==> UploadLogged(w.log, |old(w.log)|, request.team, asked.value)
    ensures used.Some? ==> SelectedLoads(w.g.keys, used.value) && Stored(w.files, used.value)
    ensures r.Err? && !w.faulted && old(Accessible(w, caller, request)) ==>
      || r.error.CertificateLimit?
      || ServiceFailed(w.g.keys, caller, remote, request, asked, used)
      || (w.g.identifierOf(request.team) !in old(w.files.pending) && !AlwaysGenerates(w.g, request)
          && old(Chosen(w, caller, remote, request.team, candidates, None)))
  {
    hide ValidIdentifier, Follows, StateAfter, Sound, Recoverable, IdentityOf, FirstFit, Fit, DebugCount, RemoteFit,
         AlwaysGenerates, Refused, IssuesFor, ListsCertificates, AskedFor, Stored, FitsAt, IsFirstLocal, AreCandidates;
    asked, used, candidates := None, None, [];
    var local, names := FindLocalMaterials(w, caller, request);
    if local.Err? {
      if FitsLocally(w, caller, request) {
        LocalNeedsBundle(w, caller, request);
      }
      return Err(local.error), asked, used, candidates;
    }
    SearchIsExact(w, caller, request, local.value, names);
    if local.value.Some? {
      LocalDelivers(w, caller, request, names);
      return Ok(local.value.value), asked, used, candidates;
    }
    var selected, validated;
    selected, validated, candidates := ChooseCertificate(w, caller, remote, request);
    if selected.Err? {
      return Err(selected.error), asked, used, candidates;
    }
    ChosenLoads(w, caller, remote, request.team, validated, candidates);
    OwnIsStored(w, request.team, validated);
    r, asked, used := Obtain(w, caller, remote, request, selected.value, validated);
  }

  lemma LocalNeedsBundle(w: Workspace, caller: Caller, request: Request)
    requires FitsLocally(w, caller, request)
    ensures ValidIdentifier(request.bundle)
  {
    hide ValidIdentifier, Fit;
  }

  /** What was found is the first fit, and nothing was found only if nothing fits. */
  lemma SearchIsExact(w: Workspace, caller: Caller, request: Request, local: Option<PreparedMaterials>,
                      names: seq<Bytes>)
    requires ValidIdentifier(request.bundle)
    requires request.bundle !in w.files.profiles ==> local == None
    requires request.bundle in w.files.profiles ==>
      && Lists(names, w.files.p12s.Keys * w.files.certificates.Keys)
      && local == FirstFit(w.g.keys, caller, w.files, request, w.files.profiles[request.bundle], names)
    ensures local.Some? <==> FitsLocally(w, caller, request)
    ensures local.Some? ==> IsFirstLocal(w, caller, request, local.value)
  {
    hide ValidIdentifier, FirstFit, Fit, Lists, IsFirstLocal;
    if request.bundle in w.files.profiles {
      LocalExactly(w, caller, request, names);
    }
  }

  /** A validated key is the team's own record. */
  lemma OwnIsStored(w: Workspace, team: Bytes, validated: Option<Validated>)
    requires w.Valid()
    requires if validated.Some? then IsPending(w.g.keys, w.files, team, validated.value)
             else w.g.identifierOf(team) !in w.files.pending
    ensures
      var id := w.g.identifierOf(team);
      if validated.Some? then id in w.files.pending && validated.value.pending == w.files.pending[id]
      else id !in w.files.pending
  {
    hide ValidIdentifier, Follows, StateAfter, KeyFits, Sound;
    w.ValidRecoverable();
  }

  /** The steps that change something: the chosen certificate is stored, or a new one is obtained
      for the pending key, and then the profile. */
  method Obtain(w: Workspace, caller: Caller, remote: Remote, request: Request, selected: Option<Selected>,
                validated: Option<Validated>)
    returns (r: Result<PreparedMaterials, ManagerError>, ghost asked: Option<Validated>, ghost used: Option<Selected>)
    requires w.Valid() && request.team in w.g.teams
    requires selected.Some? ==>
      && SelectedLoads(w.g.keys, selected.value) && selected.value.certificate.id.Some?
      && selected.value.identifier in w.files.p12s && w.files.p12s[selected.value.identifier] == selected.value.p12
    requires if validated.Some? then IsPending(w.g.keys, w.files, request.team, validated.value)
             else w.g.identifierOf(request.team) !in w.files.pending
    modifies w
    ensures w.Valid() && old(w.log) <= w.log
    ensures UploadsAtMost(w.log, |old(w.log)|, 1)
    ensures selected.Some? ==> SinceIsQuiet(w.log, |old(w.log)|)
    ensures r.Ok? ==> Delivered(w, caller, request, r.value) && r.value.identifier !in w.files.pending
    ensures r.Err? ==> !EarlyError(r.error)
    ensures old(w.faulted) ==> w.faulted
    ensures asked.Some? ==> selected.None? && AskedFor(w.g, request.team, asked.value)
    ensures asked.Some? ==> IsOwn(request, validated, asked.value)
    ensures used.Some? && selected.None? ==> asked.Some? && Answered(remote, asked.value, used.value)
    ensures r.Ok? ==> used.Some? && IsPreparedFrom(remote, request, used.value, r.value)
    ensures asked.Some? && !w.faulted ==> UploadLogged(w.log, |old(w.log)|, request.team, asked.value)
    ensures used.Some? ==> SelectedLoads(w.g.keys, used.value) && Stored(w.files, used.value)
    ensures used.Some? && selected.Some? ==> used == selected
    ensures r.Err? && !w.faulted && old(Accessible(w, caller, request)) ==>
      || (asked.Some? && Refused(w.g.keys, remote, asked.value))
      || (used.Some? && !IssuesFor(caller, remote, request, used.value))
      || (selected.None? && validated.None? && !AlwaysGenerates(w.g, request))
  {
    hide ValidIdentifier, Follows, StateAfter, Sound, Recoverable, IdentityOf, Fit, AlwaysGenerates, Refused, IssuesFor,
         AskedFor, Stored, SavedPasswordOffered, IsOwn;
    asked, used := None, None;
    var pair: Result<Selected, ManagerError>;
    if selected.Some? {
      pair := StorePair(w, selected.value);
    } else {
      pair, asked := CertifyPending(w, remote, request, validated);
    }
    if pair.Err? {
      return Err(pair.error), asked, used;
    }
    used := Some(pair.value);
    r := ObtainProfile(w, caller, remote, request, pair.value);
  }

  /** What the local search returns is stored and fits. */
  lemma LocalDelivers(w: Workspace, caller: Caller, request: Request, names: seq<Bytes>)
    requires request.bundle in w.files.profiles
    requires FirstFit(w.g.keys, caller, w.files, request, w.files.profiles[request.bundle], names).Some?
    ensures Delivered(w, caller, request,
                      FirstFit(w.g.keys, caller, w.files, request, w.files.profiles[request.bundle], names).value)
  {
    hide FirstFit, IdentityOf;
    var i, k := FirstFitExact(w.g.keys, caller, w.files, request, w.files.profiles[request.bundle], names);
  }

  /** Delivered materials are found locally from then on, without the remote service: a search
      whose listing contains the pair and whose candidates contain its password succeeds. */
  lemma DeliveredIsFoundLocally(w: Workspace, caller: Caller, request: Request, m: PreparedMaterials, names: seq<Bytes>)
    requires Delivered(w, caller, request, m)
    requires Lists(names, w.files.p12s.Keys * w.files.certificates.Keys)
    requires caller.readable(m.identifier) && m.password in caller.candidates(m.identifier)
    ensures FirstFit(w.g.keys, caller, w.files, request, m.profile, names).Some?
  {
    hide FirstFit, IdentityOf;
    assert m.identifier in names;
    var i, k := FirstFitExact(w.g.keys, caller, w.files, request, m.profile, names);
    var at :| 0 <= at < |names| && names[at] == m.identifier;
    var pw :| 0 <= pw < |caller.candidates(m.identifier)| && caller.candidates(m.identifier)[pw] == m.password;
  }

  /** The team's record is not cleared between the two steps. */
  ghost predicate NotCleared(g: Generator, log: seq<Effect>, team: Bytes, i: nat, j: nat)
    requires j <= |log|
  {
    forall k {:trigger log[k]} :: i < k < j ==> log[k] != PendingCleared(g.identifierOf(team))
  }

  /** Until the record is cleared, every retry repeats CSR and name, and no key is generated. */
  ghost predicate RetriesRepeat(g: Generator, log: seq<Effect>) {
    forall i, j :: 0 <= i < j < |log| && log[i].Uploaded? && NotCleared(g, log, log[i].team, i, j) ==>
      (log[j].Uploaded? && log[j].team == log[i].team ==> log[j] == log[i]) && log[j] != Generated(log[i].team)
  }

  lemma ValidRetries(w: Workspace)
    requires w.Valid()
    ensures RetriesRepeat(w.g, w.log)
  {
    hide Follows, StateAfter, Sound, Recoverable, StillPending;
    forall i, j | 0 <= i < j < |w.log| && w.log[i].Uploaded? && NotCleared(w.g, w.log, w.log[i].team, i, j)
      ensures w.log[j].Uploaded? && w.log[j].team == w.log[i].team ==> w.log[j] == w.log[i]
      ensures w.log[j] != Generated(w.log[i].team)
    {
      UploadedKeySurvives(w.g, w.origin, w.log, i, j);
    }
  }

  /** Any number of attempts, for any teams, callers and service answers, each failing anywhere. */
  method RunAttempts(w: Workspace, attempts: seq<(Caller, Remote, Request)>)
    requires w.Valid() && forall a :: a in attempts ==> a.2.team in w.g.teams
    modifies w
    ensures w.Valid() && old(w.log) <= w.log && RetriesRepeat(w.g, w.log)
  {
    hide Follows, StateAfter, Sound, Recoverable, RetriesRepeat;
    for i := 0 to |attempts|
      invariant w.Valid() && old(w.log) <= w.log
    {
      var outcome, _, _, _ := PrepareMaterials(w, attempts[i].0, attempts[i].1, attempts[i].2);
    }
    ValidRetries(w);
  }
}
