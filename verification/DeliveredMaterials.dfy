/** How long delivered materials stay usable: a pair is found again with its saved password until a step
    replaces one of the parts it is found with by something that does not fit. */
module DeliveredMaterials {
  import opened Wrappers
  import opened ByteCodec
  import opened CodeSign
  import opened Identity
  import opened PendingKeys
  import opened MaterialStore
  import opened MaterialManager
  import opened OverlappingAttempts

  /** P12, chain and password load, and the profile is valid for the leaf. */
  predicate FitTogether(keys: Keys, caller: Caller, request: Request, p12: Bytes, chain: Bytes, password: Bytes,
                        profile: Bytes)
  {
    var identity := IdentityOf(keys, p12, password, chain);
    && identity.Ok?
    && caller.validate(profile, request.bundle, request.udid, identity.value.certificates[0], request.now).Some?
  }

  /** The pair is stored with its password and fits the profile stored for the bundle. */
  predicate SavedFit(keys: Keys, caller: Caller, s: Files, request: Request, id: Bytes) {
    && id in s.p12s && id in s.certificates && id in s.passwords && request.bundle in s.profiles
    && FitTogether(keys, caller, request, s.p12s[id], s.certificates[id], s.passwords[id], s.profiles[request.bundle])
  }

  /** Delivered under the saved password, the materials are such a pair. */
  lemma DeliveredIsSavedFit(w: Workspace, caller: Caller, request: Request, m: PreparedMaterials)
    requires Delivered(w, caller, request, m)
    requires m.identifier in w.files.passwords && w.files.passwords[m.identifier] == m.password
    ensures SavedFit(w.g.keys, caller, w.files, request, m.identifier)
  {
    hide IdentityOf;
  }

  /** A local search that may read the pair and is offered its saved password succeeds. */
  lemma SavedFitIsFound(keys: Keys, caller: Caller, s: Files, request: Request, id: Bytes, names: seq<Bytes>)
    requires SavedFit(keys, caller, s, request, id)
    requires Lists(names, s.p12s.Keys * s.certificates.Keys)
    requires caller.readable(id) && s.passwords[id] in caller.candidates(id)
    ensures FirstFit(keys, caller, s, request, s.profiles[request.bundle], names).Some?
  {
    hide FirstFit, IdentityOf;
    assert id in names;
    var i, k := FirstFitExact(keys, caller, s, request, s.profiles[request.bundle], names);
    var at :| 0 <= at < |names| && names[at] == id;
    var pw :| 0 <= pw < |caller.candidates(id)| && caller.candidates(id)[pw] == s.passwords[id];
  }

  // ----- Which steps keep it -----

  /** The step leaves the parts alone, or replaces one by another that fits the rest. */
  predicate KeepsFit(keys: Keys, caller: Caller, s: Files, request: Request, id: Bytes, e: Effect)
    requires SavedFit(keys, caller, s, request, id)
  {
    var p12, chain, password, profile := s.p12s[id], s.certificates[id], s.passwords[id], s.profiles[request.bundle];
    match e
    case PasswordSaved(k, other) => k == id ==> FitTogether(keys, caller, request, p12, chain, other, profile)
    case P12Written(k, other) => k == id ==> FitTogether(keys, caller, request, other, chain, password, profile)
    case CertificateWritten(k, other) => k == id ==> FitTogether(keys, caller, request, p12, other, password, profile)
    case ProfileWritten(b, other) =>
      b == request.bundle ==> FitTogether(keys, caller, request, p12, chain, password, other)
    case _ => true
  }

  lemma KeepsFitExactly(keys: Keys, caller: Caller, s: Files, request: Request, id: Bytes, e: Effect)
    requires SavedFit(keys, caller, s, request, id)
    ensures SavedFit(keys, caller, Apply(s, e), request, id) <==> KeepsFit(keys, caller, s, request, id, e)
  {
    hide FitTogether;
  }

  /** Steps about other keys and profiles of other bundles keep it. */
  predicate Untouched(g: Generator, request: Request, id: Bytes, e: Effect) {
    KeyOf(g, e) != Some(id) && !(e.ProfileWritten? && e.bundle == request.bundle)
  }

  lemma UntouchedKeepsFit(g: Generator, caller: Caller, s: Files, request: Request, id: Bytes, e: Effect)
    requires SavedFit(g.keys, caller, s, request, id) && Untouched(g, request, id, e)
    ensures SavedFit(g.keys, caller, Apply(s, e), request, id)
  {
    hide FitTogether;
    KeepsFitExactly(g.keys, caller, s, request, id, e);
  }

  /** After every prefix the pair can still be found. */
  ghost predicate AlwaysFits(keys: Keys, caller: Caller, s: Files, request: Request, id: Bytes, es: seq<Effect>) {
    forall i :: 0 <= i <= |es| ==> SavedFit(keys, caller, StateAfter(s, es[..i]), request, id)
  }

  /** Every step, when it is taken, finds the pair fitting and keeps it so. */
  ghost predicate AllKeepFit(keys: Keys, caller: Caller, s: Files, request: Request, id: Bytes, es: seq<Effect>) {
    forall i {:trigger es[i]} :: 0 <= i < |es| ==>
      var now := StateAfter(s, es[..i]);
      SavedFit(keys, caller, now, request, id) ==> KeepsFit(keys, caller, now, request, id, es[i])
  }

  lemma {:induction false} FitsAfterPrefix(keys: Keys, caller: Caller, s: Files, request: Request, id: Bytes,
                                           es: seq<Effect>, i: nat)
    requires SavedFit(keys, caller, s, request, id) && AllKeepFit(keys, caller, s, request, id, es) && i <= |es|
    ensures SavedFit(keys, caller, StateAfter(s, es[..i]), request, id)
    decreases i
  {
    hide SavedFit, KeepsFit, Apply;
    if i > 0 {
      FitsAfterPrefix(keys, caller, s, request, id, es, i - 1);
      AfterPrefix(s, es, i - 1);
      assert KeepsFit(keys, caller, StateAfter(s, es[..i - 1]), request, id, es[i - 1]);
      KeepsFitExactly(keys, caller, StateAfter(s, es[..i - 1]), request, id, es[i - 1]);
    }
  }

  /** Over any run of any attempts, a delivered pair stays usable, wherever the run is cut off, exactly if
      no step replaces a part of it by one that does not fit. */
  lemma AlwaysFitsExactly(keys: Keys, caller: Caller, s: Files, request: Request, id: Bytes, es: seq<Effect>)
    requires SavedFit(keys, caller, s, request, id)
    ensures AlwaysFits(keys, caller, s, request, id, es) <==> AllKeepFit(keys, caller, s, request, id, es)
  {
    hide SavedFit, KeepsFit, Apply, StateAfter;
    if AllKeepFit(keys, caller, s, request, id, es) {
      forall i | 0 <= i <= |es|
        ensures SavedFit(keys, caller, StateAfter(s, es[..i]), request, id)
      {
        FitsAfterPrefix(keys, caller, s, request, id, es, i);
      }
    }
    if AlwaysFits(keys, caller, s, request, id, es) {
      forall i {:trigger es[i]} | 0 <= i < |es|
        ensures
          var now := StateAfter(s, es[..i]);
          SavedFit(keys, caller, now, request, id) ==> KeepsFit(keys, caller, now, request, id, es[i])
      {
        var now := StateAfter(s, es[..i]);
        AfterPrefix(s, es, i);
        assert SavedFit(keys, caller, now, request, id);
        assert SavedFit(keys, caller, StateAfter(s, es[..i + 1]), request, id);
        KeepsFitExactly(keys, caller, now, request, id, es[i]);
      }
    }
  }

  // ----- A failure that loses a delivered pair -----

  /** The first steps of an attempt that generates a new key for a team whose pair is in use. */
  function Regeneration(g: Generator, team: Bytes, password: Bytes): seq<Effect> {
    [Generated(team), PasswordSaved(g.identifierOf(team), password)]
  }

  /** The manager takes these steps whenever no record is pending. If the attempt fails behind them, the old
      P12 and certificate are still there, but under a password that does not open the P12. */
  lemma RegenerationLosesPair(g: Generator, caller: Caller, s: Files, request: Request, team: Bytes, password: Bytes)
    requires g.identifierOf(team) !in s.pending && SavedFit(g.keys, caller, s, request, g.identifierOf(team))
    requires g.keys.openP12(s.p12s[g.identifierOf(team)], password).Err?
    ensures Follows(g, s, Regeneration(g, team, password))
    ensures
      var id, after := g.identifierOf(team), StateAfter(s, Regeneration(g, team, password));
      && !SavedFit(g.keys, caller, after, request, id)
      && id in after.p12s && id in after.certificates && PairLoads(g, after, id, s.passwords[id])
  {
    var es := Regeneration(g, team, password);
    assert es[..0] == [] && es[..1] == [Generated(team)];
    AfterPrefix(s, es, 0);
    AfterPrefix(s, es, 1);
    assert es[..2] == es;
    NoSteps(s);
    hide StateAfter;
    forall i | 0 <= i < |es|
      ensures Allowed(g, StateAfter(s, es[..i]), es[i])
    {
    }
  }

  /** Key stores, certificates and chains that are their own keys. */
  function PlainKeys(): Keys {
    Keys((p12: Bytes, password: Bytes) => if p12 == password then Ok(PrivateKey([], p12)) else Err(Pkcs12),
         (key: Bytes) => key, (pem: Bytes) => Some([PemBlock(CERTIFICATE_TAG, pem)]),
         (certificate: Bytes) => Some(certificate))
  }

  function LoadingGenerator(): Generator {
    PlainGenerator().(keys := PlainKeys())
  }

  /** Profiles are valid for the certificate they name. */
  function PlainCaller(): Caller {
    Caller((profile: Bytes, bundle: Bytes, udid: Bytes, leaf: Bytes, now: int) =>
             if profile == leaf then Some(profile) else None,
           (id: Bytes) => [], (id: Bytes) => None, (id: Bytes) => true)
  }

  const USED_FILES := Files(map[[0x61] := [1]], map[[0x61] := [1]], map[], {}, map[[0x62] := [1]], map[[0x61] := [1]])

  lemma PlainChain()
    ensures CertificatesIn([PemBlock(CERTIFICATE_TAG, [1])]) == [[1]]
  {
    assert [PemBlock(CERTIFICATE_TAG, [1])][..0] == [];
  }

  lemma PlainMatch()
    ensures FirstMatch(PlainKeys(), [[1]], [1]) == Some(0) && LeafFirst([[1]], 0) == [[1]]
  {
    var certificates: seq<Bytes> := [[1]];
    assert certificates[..0] == [] && certificates[1..] == [];
    assert Matches(PlainKeys(), certificates[0], [1]);
  }

  lemma PlainPairLoads()
    ensures IdentityOf(PlainKeys(), [1], [1], [1]) == Ok(SigningIdentity([], [1], [[1]]))
  {
    hide CertificatesIn, FirstMatch, LeafFirst;
    PlainChain();
    PlainMatch();
  }

  /** A concrete run: the pair of a bundle is in use, an attempt for another bundle generates a new key and
      fails, and the pair is lost to every search with the saved password. */
  lemma FailedAttemptLosesPair(request: Request)
    requires request.bundle == [0x62]
    ensures SavedFit(PlainKeys(), PlainCaller(), USED_FILES, request, [0x61])
    ensures Follows(LoadingGenerator(), USED_FILES, Regeneration(LoadingGenerator(), [], [2]))
    ensures
      var after := StateAfter(USED_FILES, Regeneration(LoadingGenerator(), [], [2]));
      !SavedFit(PlainKeys(), PlainCaller(), after, request, [0x61])
  {
    hide IdentityOf, StateAfter, Follows, Regeneration;
    PlainPairLoads();
    RegenerationLosesPair(LoadingGenerator(), PlainCaller(), USED_FILES, request, [], [2]);
  }

  /** A service that certifies what it is sent, under an address and an id that are the CSR, and issues for an
      id the profile that names it. The empty address cannot be downloaded. */
  function PlainRemote(): Remote {
    Remote(Some([]), (csr: Bytes, name: Bytes) => Some(RemoteCertificate(Some(csr), DEBUG_TYPE, csr)),
           (udid: Bytes) => Some(Some([])), (id: Bytes, device: Bytes, bundle: Bytes) => Some(id),
           (url: Bytes) => if url == [] then None else Some(url))
  }

  /** What an attempt asks of the service can be met while every profile is valid for one leaf only. */
  lemma ServiceNeedNotFail(request: Request)
    ensures
      var asked := Validated(PendingRecord([0x61], [], [], [], [1]), [1], [1]);
      var certificate := RemoteCertificate(Some([1]), DEBUG_TYPE, [1]);
      var used := Selected([0x61], [1], [1], [1], SigningIdentity([], [1], [[1]]), certificate);
      && AskedFor(LoadingGenerator(), [], asked) && SelectedLoads(PlainKeys(), used)
      && !ServiceFailed(PlainKeys(), PlainCaller(), PlainRemote(), request, Some(asked), Some(used))
    ensures forall profile, a, b :: a != b ==>
      || PlainCaller().validate(profile, request.bundle, request.udid, a, request.now).None?
      || PlainCaller().validate(profile, request.bundle, request.udid, b, request.now).None?
  {
    hide IdentityOf;
    PlainPairLoads();
    assert KeyFits(LoadingGenerator(), [1], [1], [1]);
  }
}
