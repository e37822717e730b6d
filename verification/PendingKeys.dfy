/** The pending-key protocol: the files and passwords an attempt to prepare signing materials
    changes, one durable effect at a time, and what every run of attempts keeps. */
module PendingKeys {
  import opened Wrappers
  import opened ByteCodec
  import opened Identity

  datatype GeneratedKey = GeneratedKey(identifier: Bytes, alias: Bytes, p12: Bytes, csr: Bytes)

  /** A pending record; the P12 lies beside it under the same identifier. */
  datatype PendingRecord =
    PendingRecord(identifier: Bytes, alias: Bytes, teamId: Bytes, certificateName: Bytes, csr: Bytes)

  /** The material directory by file kind and stem, and the credential store by P12 name. A pending
      record file whose contents cannot be decoded is in `malformed` instead. */
  datatype Files = Files(
    p12s: map<Bytes, Bytes>,
    certificates: map<Bytes, Bytes>,
    pending: map<Bytes, PendingRecord>,
    malformed: set<Bytes>,
    profiles: map<Bytes, Bytes>,
    passwords: map<Bytes, Bytes>)

  /** Key generation (its randomness is the last argument), the public key inside a CSR and the
      identifier derived from a team. The teams are those that pending records belong to and that
      attempts are made for. */
  datatype Generator = Generator(
    keys: Keys,
    generate: (Bytes, Bytes, nat) -> Option<GeneratedKey>,
    csrKey: Bytes -> Option<Bytes>,
    identifierOf: Bytes -> Bytes,
    teams: set<Bytes>)

  /** The CSR asks for a certificate of the P12's key, and the password opens the P12. */
  predicate KeyFits(g: Generator, p12: Bytes, password: Bytes, csr: Bytes) {
    && g.keys.openP12(p12, password).Ok?
    && g.csrKey(csr) == Some(g.keys.publicKey(g.keys.openP12(p12, password).value.key))
  }

  /** Identifiers are file names without separators. */
  predicate ValidIdentifier(id: Bytes) {
    id != [] && forall k :: 0 <= k < |id| ==>
      0x30 <= id[k] <= 0x39 || 0x41 <= id[k] <= 0x5A || 0x61 <= id[k] <= 0x7A || id[k] in {0x2D, 0x2E, 0x5F}
  }

  /** What is refused: no name at all, and every byte that is no letter, no digit and none of "-", "." and "_". */
  lemma RefusedIdentifiers(id: Bytes)
    ensures !ValidIdentifier(id) <==>
            id == [] || exists b :: b in id && (b < 0x2D || b == 0x2F || 0x39 < b < 0x41 || 0x5A < b < 0x5F || b == 0x60
                                                || b > 0x7A)
  {
    if !ValidIdentifier(id) && id != [] {
      var k :| 0 <= k < |id| && !(0x30 <= id[k] <= 0x39 || 0x41 <= id[k] <= 0x5A || 0x61 <= id[k] <= 0x7A
                                  || id[k] in {0x2D, 0x2E, 0x5F});
      assert id[k] in id;
    }
  }

  function GeneratedBy(g: Generator, team: Bytes, password: Bytes, nonce: nat): Option<GeneratedKey> {
    g.generate(team, password, nonce)
  }

  /** What generation delivers: the team's own valid identifier and one key pair in both files.
      Identifiers are cut hashes; they need to differ for the teams at hand only. */
  ghost predicate Sound(g: Generator) {
    && (forall team, password, nonce :: GeneratedBy(g, team, password, nonce).Some? ==>
          GenerationSound(g, team, password, GeneratedBy(g, team, password, nonce).value))
    && (forall s, t :: s in g.teams && t in g.teams && g.identifierOf(s) == g.identifierOf(t) ==> s == t)
  }

  predicate GenerationSound(g: Generator, team: Bytes, password: Bytes, key: GeneratedKey) {
    && key.identifier == g.identifierOf(team) && ValidIdentifier(key.identifier)
    && KeyFits(g, key.p12, password, key.csr)
  }

  // ----- Effects -----

  /** The durable steps of an attempt. A failed step leaves no trace; a crash is a run whose
      remaining steps are missing. Generation and upload change no file. */
  datatype Effect =
    | Generated(team: Bytes)
    | PasswordSaved(id: Bytes, password: Bytes)
    | P12Written(id: Bytes, p12: Bytes)
    | PendingWritten(id: Bytes, record: PendingRecord)
    | Uploaded(team: Bytes, csr: Bytes, certificateName: Bytes)
    | CertificateWritten(id: Bytes, chain: Bytes)
    | PendingCleared(id: Bytes)
    | ProfileWritten(bundle: Bytes, profile: Bytes)

  function Apply(s: Files, e: Effect): Files {
    match e
    case Generated(_) => s
    case PasswordSaved(id, password) => s.(passwords := s.passwords[id := password])
    case P12Written(id, p12) => s.(p12s := s.p12s[id := p12])
    case PendingWritten(id, record) => s.(pending := s.pending[id := record], malformed := s.malformed - {id})
    case Uploaded(_, _, _) => s
    case CertificateWritten(id, chain) => s.(certificates := s.certificates[id := chain])
    case PendingCleared(id) => s.(pending := s.pending - {id}, malformed := s.malformed - {id})
    case ProfileWritten(bundle, profile) => s.(profiles := s.profiles[bundle := profile])
  }

  function StateAfter(s: Files, es: seq<Effect>): Files {
    if es == [] then s else Apply(StateAfter(s, es[..|es| - 1]), es[|es| - 1])
  }

  /** The stored pair loads as an identity under this password. */
  predicate PairLoads(g: Generator, s: Files, id: Bytes, password: Bytes) {
    id in s.p12s && id in s.certificates && IdentityOf(g.keys, s.p12s[id], password, s.certificates[id]).Ok?
  }

  /** The record belongs to the P12 and password stored under its identifier. */
  predicate RecordSound(g: Generator, s: Files, id: Bytes, record: PendingRecord) {
    && ValidIdentifier(id) && record.identifier == id == g.identifierOf(record.teamId) && record.teamId in g.teams
    && id in s.p12s && id in s.passwords && KeyFits(g, s.p12s[id], s.passwords[id], record.csr)
  }

  /** When the manager may take a step. */
  ghost predicate Allowed(g: Generator, s: Files, e: Effect) {
    match e
    case Generated(team) => g.identifierOf(team) !in s.pending
    case PasswordSaved(id, _) => id !in s.pending
    case P12Written(id, p12) => (id in s.p12s && s.p12s[id] == p12) || id !in s.pending
    case PendingWritten(id, record) => id !in s.pending && RecordSound(g, s, id, record)
    case Uploaded(team, csr, name) =>
      var id := g.identifierOf(team);
      && id in s.pending && s.pending[id].teamId == team
      && s.pending[id].csr == csr && s.pending[id].certificateName == name
    case CertificateWritten(id, chain) =>
      id in s.p12s && exists password :: IdentityOf(g.keys, s.p12s[id], password, chain).Ok?
    case PendingCleared(id) => exists password :: PairLoads(g, s, id, password)
    case ProfileWritten(_, _) => true
  }

  ghost predicate Follows(g: Generator, s: Files, es: seq<Effect>) {
    forall i {:trigger es[i]} :: 0 <= i < |es| ==> Allowed(g, StateAfter(s, es[..i]), es[i])
  }

  /** Every pending record is complete: its P12 is there and its saved password opens it. */
  predicate Recoverable(g: Generator, s: Files) {
    s.malformed == {} && forall id :: id in s.pending ==> RecordSound(g, s, id, s.pending[id])
  }

  // ----- Runs -----

  lemma StepKeepsRecoverable(g: Generator, s: Files, e: Effect)
    requires Recoverable(g, s) && Allowed(g, s, e)
    ensures Recoverable(g, Apply(s, e))
  {
    hide ValidIdentifier, KeyFits;
  }

  lemma AfterPrefix(s: Files, es: seq<Effect>, i: nat)
    requires i < |es|
    ensures StateAfter(s, es[..i + 1]) == Apply(StateAfter(s, es[..i]), es[i])
  {
    assert es[..i + 1][..i] == es[..i];
  }

  lemma {:induction false} RunKeepsRecoverable(g: Generator, s: Files, es: seq<Effect>, i: nat)
    requires Recoverable(g, s) && Follows(g, s, es) && i <= |es|
    ensures Recoverable(g, StateAfter(s, es[..i]))
    decreases i
  {
    hide Recoverable, Allowed;
    if i > 0 {
      RunKeepsRecoverable(g, s, es, i - 1);
      AfterPrefix(s, es, i - 1);
      StepKeepsRecoverable(g, StateAfter(s, es[..i - 1]), es[i - 1]);
    }
  }

  lemma FollowsSnoc(g: Generator, s: Files, es: seq<Effect>, e: Effect)
    requires Follows(g, s, es) && Allowed(g, StateAfter(s, es), e)
    ensures Follows(g, s, es + [e])
    ensures StateAfter(s, es + [e]) == Apply(StateAfter(s, es), e)
  {
    hide Allowed;
    var fs := es + [e];
    assert fs[..|es|] == es;
    forall i | 0 <= i < |fs|
      ensures Allowed(g, StateAfter(s, fs[..i]), fs[i])
    {
      if i < |es| {
        assert fs[..i] == es[..i] && fs[i] == es[i];
      }
    }
  }

  /** Runs can be cut and joined. */
  lemma {:induction false} FollowsConcat(g: Generator, s: Files, es: seq<Effect>, fs: seq<Effect>)
    requires Follows(g, s, es) && Follows(g, StateAfter(s, es), fs)
    ensures Follows(g, s, es + fs) && StateAfter(s, es + fs) == StateAfter(StateAfter(s, es), fs)
    decreases |fs|
  {
    hide Allowed, Apply;
    if fs == [] {
      assert es + fs == es;
    } else {
      var init, last := fs[..|fs| - 1], fs[|fs| - 1];
      FollowsPrefix(g, StateAfter(s, es), fs, init);
      FollowsConcat(g, s, es, init);
      assert fs[..|init|] == init;
      FollowsSnoc(g, s, es + init, last);
      assert es + fs == (es + init) + [last];
    }
  }

  lemma FollowsPrefix(g: Generator, s: Files, es: seq<Effect>, done: seq<Effect>)
    requires Follows(g, s, es) && done <= es
    ensures Follows(g, s, done)
  {
    hide Allowed;
    forall i {:trigger done[i]} | 0 <= i < |done|
      ensures Allowed(g, StateAfter(s, done[..i]), done[i])
    {
      assert done[..i] == es[..i] && done[i] == es[i];
    }
  }

  /** The pending record uploaded at step i is untouched: same CSR, name and P12, and the same
      saved password, which opens the P12. */
  predicate StillPending(g: Generator, before: Files, now: Files, team: Bytes, csr: Bytes, name: Bytes) {
    var id := g.identifierOf(team);
    && id in before.p12s && id in before.passwords
    && id in now.pending && RecordSound(g, now, id, now.pending[id])
    && now.pending[id].teamId == team && now.pending[id].csr == csr && now.pending[id].certificateName == name
    && now.p12s[id] == before.p12s[id] && now.passwords[id] == before.passwords[id]
  }

  lemma UploadStarts(g: Generator, s: Files, e: Effect)
    requires Recoverable(g, s) && Allowed(g, s, e) && e.Uploaded?
    ensures StillPending(g, s, Apply(s, e), e.team, e.csr, e.certificateName)
  {
    hide ValidIdentifier, KeyFits;
  }

  lemma SurvivesStep(g: Generator, before: Files, now: Files, e: Effect, team: Bytes, csr: Bytes, name: Bytes)
    requires StillPending(g, before, now, team, csr, name) && Allowed(g, now, e)
    requires e != PendingCleared(g.identifierOf(team))
    ensures StillPending(g, before, Apply(now, e), team, csr, name)
  {
    hide ValidIdentifier, KeyFits;
  }

  lemma StillPendingForces(g: Generator, before: Files, now: Files, e: Effect, team: Bytes, csr: Bytes, name: Bytes)
    requires StillPending(g, before, now, team, csr, name) && Allowed(g, now, e)
    ensures e.Uploaded? && e.team == team ==> e == Uploaded(team, csr, name)
    ensures e != Generated(team)
  {
    hide ValidIdentifier, KeyFits;
  }

  /** Safety over whole runs. From any upload of a CSR until the record is cleared, whatever
      attempts for whatever teams follow and wherever they fail, the store holds the record with
      that CSR and name and a P12 its saved password opens; so the next upload for the team repeats
      CSR and name, and no key is generated for it. */
  lemma {:induction false} UploadedKeySurvives(g: Generator, s: Files, es: seq<Effect>, i: nat, j: nat)
    requires Recoverable(g, s) && Follows(g, s, es)
    requires i < j <= |es| && es[i].Uploaded?
    requires forall k {:trigger es[k]} :: i < k < j ==> es[k] != PendingCleared(g.identifierOf(es[i].team))
    ensures StillPending(g, StateAfter(s, es[..i]), StateAfter(s, es[..j]), es[i].team, es[i].csr,
                         es[i].certificateName)
    ensures j < |es| ==>
      && (es[j].Uploaded? && es[j].team == es[i].team ==> es[j] == es[i])
      && es[j] != Generated(es[i].team)
    decreases j
  {
    hide Allowed, StillPending, Apply, Recoverable, StateAfter;
    var before := StateAfter(s, es[..i]);
    if j == i + 1 {
      RunKeepsRecoverable(g, s, es, i);
      AfterPrefix(s, es, i);
      UploadStarts(g, before, es[i]);
    } else {
      UploadedKeySurvives(g, s, es, i, j - 1);
      AfterPrefix(s, es, j - 1);
      SurvivesStep(g, before, StateAfter(s, es[..j - 1]), es[j - 1], es[i].team, es[i].csr, es[i].certificateName);
    }
    if j < |es| {
      StillPendingForces(g, before, StateAfter(s, es[..j]), es[j], es[i].team, es[i].csr, es[i].certificateName);
    }
  }

  /** Only one password opens the P12. */
  ghost predicate OnePassword(keys: Keys, p12: Bytes) {
    forall a, b :: keys.openP12(p12, a).Ok? && keys.openP12(p12, b).Ok? ==> a == b
  }

  lemma ClearingStep(g: Generator, s: Files, e: Effect, id: Bytes)
    requires Recoverable(g, s) && Allowed(g, s, e) && id in s.pending && id !in Apply(s, e).pending
    ensures e == PendingCleared(id) && id in s.p12s && id in s.passwords
    ensures exists password :: PairLoads(g, s, id, password)
    ensures OnePassword(g.keys, s.p12s[id]) ==> PairLoads(g, s, id, s.passwords[id])
  {
    hide ValidIdentifier;
    var password :| PairLoads(g, s, id, password);
    assert g.keys.openP12(s.p12s[id], password).Ok?;
    assert g.keys.openP12(s.p12s[id], s.passwords[id]).Ok?;
  }

  /** A record disappears only by a clearing step, and then the directory holds a certificate for
      its P12; if that P12 opens under one password only, the saved password loads the pair. */
  lemma ClearedOnlyWithPair(g: Generator, s: Files, es: seq<Effect>, i: nat, id: Bytes)
    requires Recoverable(g, s) && Follows(g, s, es) && i < |es|
    requires id in StateAfter(s, es[..i]).pending && id !in StateAfter(s, es[..i + 1]).pending
    ensures es[i] == PendingCleared(id)
    ensures
      var now := StateAfter(s, es[..i]);
      && id in now.p12s && id in now.passwords
      && (exists password :: PairLoads(g, now, id, password))
      && (OnePassword(g.keys, now.p12s[id]) ==> PairLoads(g, now, id, now.passwords[id]))
  {
    hide Allowed, Apply, Recoverable, PairLoads, StateAfter, OnePassword;
    AfterPrefix(s, es, i);
    RunKeepsRecoverable(g, s, es, i);
    ClearingStep(g, StateAfter(s, es[..i]), es[i], id);
  }

  /** With one identifier per team there is at most one pending record per team. */
  lemma OnePendingPerTeam(g: Generator, s: Files, a: Bytes, b: Bytes)
    requires Recoverable(g, s) && a in s.pending && b in s.pending
    requires s.pending[a].teamId == s.pending[b].teamId
    ensures a == b
  {
    hide ValidIdentifier, KeyFits;
  }
}
