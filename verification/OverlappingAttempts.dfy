/** Attempts that run at the same time, as two re-signs of the desktop application may. Key by key their
    steps matter only in the order in which they touch that key; two attempts for one team can spoil its
    pending record. */
module OverlappingAttempts {
  import opened Wrappers
  import opened ByteCodec
  import opened Identity
  import opened PendingKeys

  // ----- Steps for different keys do not interfere -----

  /** The key a step is about. */
  function KeyOf(g: Generator, e: Effect): Option<Bytes> {
    match e
    case Generated(team) => Some(g.identifierOf(team))
    case PasswordSaved(id, _) => Some(id)
    case P12Written(id, _) => Some(id)
    case PendingWritten(id, _) => Some(id)
    case Uploaded(team, _, _) => Some(g.identifierOf(team))
    case CertificateWritten(id, _) => Some(id)
    case PendingCleared(id) => Some(id)
    case ProfileWritten(_, _) => None
  }

  /** The steps about one key, in order. */
  function Only(g: Generator, es: seq<Effect>, id: Bytes): seq<Effect> {
    if es == [] then []
    else
      var rest, e := Only(g, es[..|es| - 1], id), es[|es| - 1];
      if KeyOf(g, e) == Some(id) then rest + [e] else rest
  }

  predicate SameIn<T(==)>(m: map<Bytes, T>, n: map<Bytes, T>, id: Bytes) {
    (id in m <==> id in n) && (id in m ==> m[id] == n[id])
  }

  /** The two states agree on everything stored for that key. */
  predicate SameKey(s: Files, t: Files, id: Bytes) {
    && SameIn(s.p12s, t.p12s, id) && SameIn(s.certificates, t.certificates, id)
    && SameIn(s.pending, t.pending, id) && SameIn(s.passwords, t.passwords, id)
  }

  lemma OthersKeepKey(g: Generator, s: Files, e: Effect, id: Bytes)
    requires KeyOf(g, e) != Some(id)
    ensures SameKey(s, Apply(s, e), id)
  {
  }

  lemma StepOnSameKey(g: Generator, s: Files, t: Files, e: Effect, id: Bytes)
    requires SameKey(s, t, id)
    ensures SameKey(Apply(s, e), Apply(t, e), id)
  {
  }

  /** Whether a step is allowed depends on its own key alone. */
  lemma AllowedLocally(g: Generator, s: Files, t: Files, e: Effect)
    requires KeyOf(g, e).Some? && SameKey(s, t, KeyOf(g, e).value) && Allowed(g, s, e)
    ensures Allowed(g, t, e)
  {
    hide ValidIdentifier, KeyFits, IdentityOf;
    if e.PendingCleared? {
      var password :| PairLoads(g, s, e.id, password);
      assert PairLoads(g, t, e.id, password);
    }
  }

  /** The other steps of a run leave a key as it is. */
  lemma {:induction false} OnlyAgrees(g: Generator, s: Files, es: seq<Effect>, id: Bytes)
    ensures SameKey(StateAfter(s, es), StateAfter(s, Only(g, es, id)), id)
    decreases |es|
  {
    hide Apply, SameIn;
    if es != [] {
      var init, e := es[..|es| - 1], es[|es| - 1];
      OnlyAgrees(g, s, init, id);
      var own := Only(g, init, id);
      if KeyOf(g, e) == Some(id) {
        assert (own + [e])[..|own|] == own;
        StepOnSameKey(g, StateAfter(s, init), StateAfter(s, own), e, id);
      } else {
        OthersKeepKey(g, StateAfter(s, init), e, id);
        KeyChain(StateAfter(s, init), Apply(StateAfter(s, init), e), StateAfter(s, own), id);
      }
    } else {
      KeyRefl(s, id);
    }
  }

  lemma KeyRefl(s: Files, id: Bytes)
    ensures SameKey(s, s, id)
  {
  }

  lemma KeyChain(s: Files, t: Files, u: Files, id: Bytes)
    requires SameKey(s, t, id) && SameKey(s, u, id)
    ensures SameKey(t, u, id) && SameKey(u, t, id)
  {
  }

  /** Key by key, the steps are allowed when taken alone. */
  ghost predicate FollowsAlone(g: Generator, s: Files, es: seq<Effect>) {
    forall id :: Follows(g, s, Only(g, es, id))
  }

  lemma OnlyStep(g: Generator, s: Files, es: seq<Effect>, id: Bytes)
    requires es != []
    ensures
      var init, e := es[..|es| - 1], es[|es| - 1];
      Follows(g, s, Only(g, es, id)) <==>
        && Follows(g, s, Only(g, init, id))
        && (KeyOf(g, e) == Some(id) ==> Allowed(g, StateAfter(s, Only(g, init, id)), e))
  {
    hide Allowed, KeyOf, StateAfter, Follows;
    if KeyOf(g, es[|es| - 1]) == Some(id) {
      LastStep(g, s, Only(g, es, id));
      assert Only(g, es, id)[..|Only(g, es, id)| - 1] == Only(g, es[..|es| - 1], id);
    }
  }

  lemma {:induction false} AloneSuffices(g: Generator, s: Files, es: seq<Effect>)
    requires FollowsAlone(g, s, es)
    ensures Follows(g, s, es)
    decreases |es|
  {
    hide Allowed, Apply, SameKey, KeyOf, StateAfter, Follows, Only;
    if es == [] {
      EmptyFollows(g, s);
    } else {
      var init, e := es[..|es| - 1], es[|es| - 1];
      forall id
        ensures Follows(g, s, Only(g, init, id))
      {
        OnlyStep(g, s, es, id);
      }
      AloneSuffices(g, s, init);
      if KeyOf(g, e).None? {
        ProfileIsAllowed(g, StateAfter(s, init), e);
      } else {
        var id := KeyOf(g, e).value;
        OnlyStep(g, s, es, id);
        OnlyAgrees(g, s, init, id);
        AllowedAlike(g, StateAfter(s, init), StateAfter(s, Only(g, init, id)), e);
      }
      LastStep(g, s, es);
    }
  }

  lemma {:induction false} AloneFollows(g: Generator, s: Files, es: seq<Effect>, id: Bytes)
    requires Follows(g, s, es)
    ensures Follows(g, s, Only(g, es, id))
    decreases |es|
  {
    hide Allowed, Apply, SameKey, KeyOf, StateAfter, Follows, Only;
    if es == [] {
      EmptyFollows(g, s);
    } else {
      var init, e := es[..|es| - 1], es[|es| - 1];
      LastStep(g, s, es);
      AloneFollows(g, s, init, id);
      OnlyStep(g, s, es, id);
      if KeyOf(g, e) == Some(id) {
        OnlyAgrees(g, s, init, id);
        AllowedAlike(g, StateAfter(s, init), StateAfter(s, Only(g, init, id)), e);
      }
    }
  }

  /** A run is allowed exactly if, key by key, its steps are allowed when taken alone. So attempts may
      overlap as long as no two of them touch the same key in between each other's steps. */
  lemma InterleavingExactly(g: Generator, s: Files, es: seq<Effect>)
    ensures Follows(g, s, es) <==> FollowsAlone(g, s, es)
  {
    hide Follows, Only;
    if Follows(g, s, es) {
      forall id
        ensures Follows(g, s, Only(g, es, id))
      {
        AloneFollows(g, s, es, id);
      }
    }
    if FollowsAlone(g, s, es) {
      AloneSuffices(g, s, es);
    }
  }

  lemma AllowedAlike(g: Generator, s: Files, t: Files, e: Effect)
    requires KeyOf(g, e).Some? && SameKey(s, t, KeyOf(g, e).value)
    ensures Allowed(g, s, e) <==> Allowed(g, t, e)
  {
    hide Allowed, KeyOf;
    KeyRefl(s, KeyOf(g, e).value);
    KeyChain(s, s, t, KeyOf(g, e).value);
    if Allowed(g, s, e) {
      AllowedLocally(g, s, t, e);
    }
    if Allowed(g, t, e) {
      AllowedLocally(g, t, s, e);
    }
  }

  lemma ProfileIsAllowed(g: Generator, s: Files, e: Effect)
    requires KeyOf(g, e).None?
    ensures Allowed(g, s, e)
  {
  }

  lemma EmptyFollows(g: Generator, s: Files)
    ensures Follows(g, s, [])
    ensures forall id :: Only(g, [], id) == []
  {
  }

  lemma LastStep(g: Generator, s: Files, es: seq<Effect>)
    requires es != []
    ensures Follows(g, s, es) <==>
              Follows(g, s, es[..|es| - 1]) && Allowed(g, StateAfter(s, es[..|es| - 1]), es[|es| - 1])
  {
    hide Allowed;
    var init := es[..|es| - 1];
    assert init + [es[|es| - 1]] == es;
    if Follows(g, s, es) {
      FollowsPrefix(g, s, es, init);
    }
    if Follows(g, s, init) && Allowed(g, StateAfter(s, init), es[|es| - 1]) {
      FollowsSnoc(g, s, init, es[|es| - 1]);
    }
  }

  // ----- Runs about different keys -----

  /** es consists of the steps of fs and gs, each in its own order. */
  predicate Merges(es: seq<Effect>, fs: seq<Effect>, gs: seq<Effect>)
    decreases |es|
  {
    if es == [] then fs == [] && gs == []
    else
      var n := |es| - 1;
      || (fs != [] && fs[|fs| - 1] == es[n] && Merges(es[..n], fs[..|fs| - 1], gs))
      || (gs != [] && gs[|gs| - 1] == es[n] && Merges(es[..n], fs, gs[..|gs| - 1]))
  }

  /** No step of one run is about a key of the other. */
  predicate DifferentKeys(g: Generator, fs: seq<Effect>, gs: seq<Effect>) {
    forall e, f :: e in fs && f in gs && KeyOf(g, e).Some? ==> KeyOf(g, e) != KeyOf(g, f)
  }

  lemma {:induction false} NoneOnly(g: Generator, es: seq<Effect>, id: Bytes)
    requires forall e :: e in es ==> KeyOf(g, e) != Some(id)
    ensures Only(g, es, id) == []
    decreases |es|
  {
    hide KeyOf;
    if es != [] {
      assert es[|es| - 1] in es;
      NoneOnly(g, es[..|es| - 1], id);
    }
  }

  /** What a merged run does to a key of which the second run has no step is what the first run does. */
  lemma {:induction false} OnlyOfMerge(g: Generator, es: seq<Effect>, fs: seq<Effect>, gs: seq<Effect>, id: Bytes)
    requires Merges(es, fs, gs)
    ensures (forall e :: e in gs ==> KeyOf(g, e) != Some(id)) ==> Only(g, es, id) == Only(g, fs, id)
    ensures (forall e :: e in fs ==> KeyOf(g, e) != Some(id)) ==> Only(g, es, id) == Only(g, gs, id)
    decreases |es|
  {
    hide KeyOf;
    if es != [] {
      var n := |es| - 1;
      if fs != [] && fs[|fs| - 1] == es[n] && Merges(es[..n], fs[..|fs| - 1], gs) {
        assert fs[|fs| - 1] in fs;
        OnlyOfMerge(g, es[..n], fs[..|fs| - 1], gs, id);
      } else {
        assert gs[|gs| - 1] in gs;
        OnlyOfMerge(g, es[..n], fs, gs[..|gs| - 1], id);
      }
    }
  }

  /** Two runs about different keys may be interleaved in any way. The result is a run again, so this
      extends to any number of them. */
  lemma DifferentKeysFollow(g: Generator, s: Files, es: seq<Effect>, fs: seq<Effect>, gs: seq<Effect>)
    requires Follows(g, s, fs) && Follows(g, s, gs) && Merges(es, fs, gs) && DifferentKeys(g, fs, gs)
    ensures FollowsAlone(g, s, es) && Follows(g, s, es)
  {
    hide Follows, Only, KeyOf;
    forall id
      ensures Follows(g, s, Only(g, es, id))
    {
      OnlyOfMerge(g, es, fs, gs, id);
      AloneFollows(g, s, fs, id);
      AloneFollows(g, s, gs, id);
      if f :| f in gs && KeyOf(g, f) == Some(id) {
        assert forall e :: e in fs ==> KeyOf(g, e) != Some(id);
      }
    }
    AloneSuffices(g, s, es);
  }

  // ----- Any steps at all -----

  /** The step leaves complete what was complete: a password or P12 saved for a pending key still fits the
      record's CSR, and a record is written beside a P12 and a password that fit it. */
  predicate Harmless(g: Generator, s: Files, e: Effect) {
    match e
    case PasswordSaved(id, password) =>
      id in s.pending ==> id in s.p12s && KeyFits(g, s.p12s[id], password, s.pending[id].csr)
    case P12Written(id, p12) =>
      id in s.pending ==> id in s.passwords && KeyFits(g, p12, s.passwords[id], s.pending[id].csr)
    case PendingWritten(id, record) => RecordSound(g, s, id, record)
    case _ => true
  }

  lemma RecordWrittenExactly(g: Generator, s: Files, id: Bytes, record: PendingRecord)
    requires Recoverable(g, s)
    ensures Recoverable(g, Apply(s, PendingWritten(id, record))) <==> RecordSound(g, s, id, record)
  {
    hide ValidIdentifier, KeyFits;
    var t := Apply(s, PendingWritten(id, record));
    assert t.malformed == {} && id in t.pending && t.pending[id] == record;
    assert RecordSound(g, t, id, record) <==> RecordSound(g, s, id, record);
    assert forall k :: k in t.pending && k != id ==> k in s.pending && t.pending[k] == s.pending[k];
  }

  lemma HarmlessExactly(g: Generator, s: Files, e: Effect)
    requires Recoverable(g, s)
    ensures Recoverable(g, Apply(s, e)) <==> Harmless(g, s, e)
  {
    hide ValidIdentifier, KeyFits;
    var t := Apply(s, e);
    match e
    case PasswordSaved(id, _) => assert id in s.pending ==> RecordSound(g, s, id, s.pending[id]);
    case P12Written(id, _) => assert id in s.pending ==> RecordSound(g, s, id, s.pending[id]);
    case PendingWritten(id, record) => RecordWrittenExactly(g, s, id, record);
    case _ =>
  }

  /** Whatever steps are taken, in whatever order: a crash after any of them finds every pending record
      complete. */
  ghost predicate AlwaysRecoverable(g: Generator, s: Files, es: seq<Effect>) {
    forall i :: 0 <= i <= |es| ==> Recoverable(g, StateAfter(s, es[..i]))
  }

  ghost predicate AllHarmless(g: Generator, s: Files, es: seq<Effect>) {
    forall i {:trigger es[i]} :: 0 <= i < |es| ==> Harmless(g, StateAfter(s, es[..i]), es[i])
  }

  lemma {:induction false} HarmlessPrefixes(g: Generator, s: Files, es: seq<Effect>, i: nat)
    requires Recoverable(g, s) && AllHarmless(g, s, es) && i <= |es|
    ensures Recoverable(g, StateAfter(s, es[..i]))
    decreases i
  {
    hide Recoverable, Harmless, Apply;
    if i > 0 {
      HarmlessPrefixes(g, s, es, i - 1);
      AfterPrefix(s, es, i - 1);
      assert Harmless(g, StateAfter(s, es[..i - 1]), es[i - 1]);
      HarmlessExactly(g, StateAfter(s, es[..i - 1]), es[i - 1]);
    }
  }

  /** Attempts that overlap in any way keep every pending record complete exactly if each step, when it is
      taken, is harmless. */
  lemma AlwaysRecoverableExactly(g: Generator, s: Files, es: seq<Effect>)
    requires Recoverable(g, s)
    ensures AlwaysRecoverable(g, s, es) <==> AllHarmless(g, s, es)
  {
    hide Recoverable, Harmless, StateAfter, Apply;
    if AllHarmless(g, s, es) {
      forall i | 0 <= i <= |es|
        ensures Recoverable(g, StateAfter(s, es[..i]))
      {
        HarmlessPrefixes(g, s, es, i);
      }
    }
    if AlwaysRecoverable(g, s, es) {
      forall i {:trigger es[i]} | 0 <= i < |es|
        ensures Harmless(g, StateAfter(s, es[..i]), es[i])
      {
        AfterPrefix(s, es, i);
        assert Recoverable(g, StateAfter(s, es[..i])) && Recoverable(g, StateAfter(s, es[..i + 1]));
        HarmlessExactly(g, StateAfter(s, es[..i]), es[i]);
      }
    }
  }

  /** The manager's own guard is stricter: it also forbids to generate a key beside a pending record, which
      by itself does no harm. */
  lemma GuardIsStricter(g: Generator, s: Files, team: Bytes)
    requires g.identifierOf(team) in s.pending
    ensures Harmless(g, s, Generated(team)) && !Allowed(g, s, Generated(team))
  {
  }

  lemma AllowedIsHarmless(g: Generator, s: Files, e: Effect)
    requires Recoverable(g, s) && Allowed(g, s, e)
    ensures Harmless(g, s, e)
  {
    StepKeepsRecoverable(g, s, e);
    HarmlessExactly(g, s, e);
  }

  /** So attempts that overlap in this way keep what sequential ones keep. */
  lemma OverlappingRunsRecoverable(g: Generator, s: Files, es: seq<Effect>)
    requires Recoverable(g, s) && FollowsAlone(g, s, es)
    ensures Follows(g, s, es) && Recoverable(g, StateAfter(s, es))
  {
    hide Recoverable, Follows, Only, StateAfter;
    InterleavingExactly(g, s, es);
    RunKeepsRecoverable(g, s, es, |es|);
    assert es[..|es|] == es;
  }

  // ----- Two attempts for one team -----

  const EMPTY_FILES := Files(map[], map[], map[], {}, map[], map[])

  /** What an attempt does for a team without a pending record, up to the upload. */
  function FirstSteps(team: Bytes, key: GeneratedKey, password: Bytes, name: Bytes): seq<Effect> {
    [Generated(team), PasswordSaved(key.identifier, password), P12Written(key.identifier, key.p12),
     PendingWritten(key.identifier, PendingRecord(key.identifier, key.alias, team, name, key.csr)),
     Uploaded(team, key.csr, name)]
  }

  /** Both attempts generate a key; one goes on to the upload, then the other saves password and P12. */
  function Overlap(team: Bytes, one: GeneratedKey, password: Bytes, name: Bytes, other: GeneratedKey, password': Bytes)
    : seq<Effect>
  {
    [Generated(team)] + FirstSteps(team, one, password, name)
    + [PasswordSaved(other.identifier, password'), P12Written(other.identifier, other.p12)]
  }

  /** Each attempt is fine by itself; overlapping, they leave the uploaded CSR beside the P12 of the other
      attempt, so that no retry can ever use the certificate. */
  lemma OverlapSpoilsRecord(g: Generator, team: Bytes, one: GeneratedKey, password: Bytes, name: Bytes,
                            other: GeneratedKey, password': Bytes)
    requires GenerationSound(g, team, password, one) && GenerationSound(g, team, password', other) && team in g.teams
    requires !KeyFits(g, other.p12, password', one.csr)
    ensures Follows(g, EMPTY_FILES, FirstSteps(team, one, password, name))
    ensures Follows(g, EMPTY_FILES, FirstSteps(team, other, password', name))
    ensures !Recoverable(g, StateAfter(EMPTY_FILES, Overlap(team, one, password, name, other, password')))
  {
    FirstStepsFollow(g, team, one, password, name);
    FirstStepsFollow(g, team, other, password', name);
    OverlapState(team, one, password, name, other, password');
    hide StateAfter, Overlap, Follows, KeyFits, ValidIdentifier;
  }

  lemma FirstStepsFollow(g: Generator, team: Bytes, key: GeneratedKey, password: Bytes, name: Bytes)
    requires GenerationSound(g, team, password, key) && team in g.teams
    ensures Follows(g, EMPTY_FILES, FirstSteps(team, key, password, name))
  {
    hide ValidIdentifier, KeyFits, StateAfter;
    var es := FirstSteps(team, key, password, name);
    var s1 := Apply(EMPTY_FILES, es[1]);
    var s2 := Apply(s1, es[2]);
    var s3 := Apply(s2, es[3]);
    assert Allowed(g, s1, es[2]) && Allowed(g, s2, es[3]) && Allowed(g, s3, es[4]);
    StepsOf(EMPTY_FILES, es, s1, s2, s3);
    hide Allowed, Apply;
    forall i | 0 <= i < |es|
      ensures Allowed(g, StateAfter(EMPTY_FILES, es[..i]), es[i])
    {
    }
  }

  /** The states between five steps of which the first changes nothing. */
  lemma StepsOf(s: Files, es: seq<Effect>, s1: Files, s2: Files, s3: Files)
    requires |es| == 5 && Apply(s, es[0]) == s
    requires s1 == Apply(s, es[1]) && s2 == Apply(s1, es[2]) && s3 == Apply(s2, es[3])
    ensures StateAfter(s, es[..0]) == s && StateAfter(s, es[..1]) == s && StateAfter(s, es[..2]) == s1
    ensures StateAfter(s, es[..3]) == s2 && StateAfter(s, es[..4]) == s3
    ensures StateAfter(s, es) == Apply(s3, es[4])
  {
    hide Apply;
    AfterPrefix(s, es, 0);
    AfterPrefix(s, es, 1);
    AfterPrefix(s, es, 2);
    AfterPrefix(s, es, 3);
    AfterPrefix(s, es, 4);
    assert es[..5] == es;
  }

  lemma OverlapState(team: Bytes, one: GeneratedKey, password: Bytes, name: Bytes, other: GeneratedKey,
                     password': Bytes)
    requires one.identifier == other.identifier
    ensures
      var s, id := StateAfter(EMPTY_FILES, Overlap(team, one, password, name, other, password')), one.identifier;
      && id in s.pending && s.pending[id].csr == one.csr
      && id in s.p12s && s.p12s[id] == other.p12 && id in s.passwords && s.passwords[id] == password'
  {
    hide StateAfter;
    var es := Overlap(team, one, password, name, other, password');
    var first := FirstSteps(team, one, password, name);
    assert es[0] == Generated(team) && forall i :: 0 <= i < 5 ==> es[i + 1] == first[i];
    AfterPrefix(EMPTY_FILES, es, 0);
    AfterPrefix(EMPTY_FILES, es, 1);
    AfterPrefix(EMPTY_FILES, es, 2);
    AfterPrefix(EMPTY_FILES, es, 3);
    AfterPrefix(EMPTY_FILES, es, 4);
    AfterPrefix(EMPTY_FILES, es, 5);
    AfterPrefix(EMPTY_FILES, es, 6);
    AfterPrefix(EMPTY_FILES, es, 7);
    assert es[..8] == es && es[..0] == [];
    NoSteps(EMPTY_FILES);
  }

  lemma NoSteps(s: Files)
    ensures StateAfter(s, []) == s
  {
  }

  /** A generator whose keys are their passwords. */
  function PlainGenerator(): Generator {
    Generator(
      Keys((p12: Bytes, password: Bytes) => if p12 == password then Ok(PrivateKey([], p12)) else Err(Pkcs12),
           (key: Bytes) => key, (pem: Bytes) => None, (certificate: Bytes) => None),
      (team: Bytes, password: Bytes, nonce: nat) => Some(PlainKey(password)),
      (csr: Bytes) => Some(csr), (team: Bytes) => [0x61], {[]})
  }

  function PlainKey(password: Bytes): GeneratedKey {
    GeneratedKey([0x61], [], password, password)
  }

  /** A concrete run of two attempts for one team that spoils its record. */
  lemma OverlappingAttemptsSpoil()
    ensures Sound(PlainGenerator())
    ensures Follows(PlainGenerator(), EMPTY_FILES, FirstSteps([], PlainKey([1]), [1], []))
    ensures Follows(PlainGenerator(), EMPTY_FILES, FirstSteps([], PlainKey([2]), [2], []))
    ensures !Recoverable(PlainGenerator(),
                         StateAfter(EMPTY_FILES, Overlap([], PlainKey([1]), [1], [], PlainKey([2]), [2])))
  {
    hide Follows, Recoverable, StateAfter, Overlap, FirstSteps;
    OverlapSpoilsRecord(PlainGenerator(), [], PlainKey([1]), [1], [], PlainKey([2]), [2]);
  }
}
