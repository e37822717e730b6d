/** Loading a signing identity: the private key of a P12 and a PEM chain in which the certificate
    of that key is moved to the front. */
module Identity {
  import opened Wrappers
  import opened ByteCodec
  import opened CodeSign

  datatype MaterialError =
    | Pkcs12
    | MissingPrivateKey
    | PrivateKeyInvalid
    | CertificateInvalid
    | MatchingCertificateNotFound

  datatype PrivateKey = PrivateKey(alias: Bytes, key: Bytes)
  datatype PemBlock = PemBlock(tag: Bytes, contents: Bytes)

  /** Key stores, PEM and DER parsing. */
  datatype Keys = Keys(
    openP12: (Bytes, Bytes) -> Result<PrivateKey, MaterialError>,
    publicKey: Bytes -> Bytes,
    parsePem: Bytes -> Option<seq<PemBlock>>,
    certificateKey: Bytes -> Option<Bytes>)

  const CERTIFICATE_TAG: Bytes := [0x43, 0x45, 0x52, 0x54, 0x49, 0x46, 0x49, 0x43, 0x41, 0x54, 0x45]

  /** The contents of the certificate blocks, in order. */
  function CertificatesIn(blocks: seq<PemBlock>): seq<Bytes> {
    if blocks == [] then []
    else
      var rest := CertificatesIn(blocks[..|blocks| - 1]);
      if blocks[|blocks| - 1].tag == CERTIFICATE_TAG then rest + [blocks[|blocks| - 1].contents] else rest
  }

  predicate Matches(keys: Keys, certificate: Bytes, key: Bytes) {
    keys.certificateKey(certificate) == Some(keys.publicKey(key))
  }

  /** The first certificate of the key, counted from the front. */
  function FirstMatch(keys: Keys, certificates: seq<Bytes>, key: Bytes): (r: Option<nat>)
    ensures r.Some? ==>
      && r.value < |certificates| && Matches(keys, certificates[r.value], key)
      && forall k :: 0 <= k < r.value ==> !Matches(keys, certificates[k], key)
    ensures r.None? ==> forall k :: 0 <= k < |certificates| ==> !Matches(keys, certificates[k], key)
  {
    if certificates == [] then None
    else
      var rest := FirstMatch(keys, certificates[..|certificates| - 1], key);
      if rest.Some? then rest
      else if Matches(keys, certificates[|certificates| - 1], key) then Some(|certificates| - 1)
      else None
  }

  function LeafFirst(certificates: seq<Bytes>, leaf: nat): (r: seq<Bytes>)
    requires leaf < |certificates|
  {
    [certificates[leaf]] + certificates[..leaf] + certificates[leaf + 1..]
  }

  function IdentityOf(keys: Keys, p12: Bytes, password: Bytes, chain: Bytes)
    : (r: Result<SigningIdentity, MaterialError>)
    ensures r.Ok? ==> r.value.certificates != []
  {
    var privateKey :- keys.openP12(p12, password);
    var blocks := keys.parsePem(chain);
    if blocks.None? then Err(CertificateInvalid)
    else
      var certificates := CertificatesIn(blocks.value);
      if exists c :: c in certificates && keys.certificateKey(c).None? then Err(CertificateInvalid)
      else
        var leaf := FirstMatch(keys, certificates, privateKey.key);
        if leaf.None? then Err(MatchingCertificateNotFound)
        else Ok(SigningIdentity(privateKey.alias, privateKey.key, LeafFirst(certificates, leaf.value)))
  }

  /** The certificates with a flag for those of the key. */
  function Flagged(keys: Keys, certificates: seq<Bytes>, key: Bytes): (fs: seq<(bool, Bytes)>)
    ensures |fs| == |certificates|
    ensures forall i {:trigger fs[i]} :: 0 <= i < |fs| ==>
              fs[i] == (Matches(keys, certificates[i], key), certificates[i])
  {
    seq(|certificates|, i requires 0 <= i < |certificates| => (Matches(keys, certificates[i], key), certificates[i]))
  }

  /** The collecting loop: other PEM blocks are skipped, an unreadable certificate ends it. */
  method CollectCertificates(keys: Keys, blocks: seq<PemBlock>, key: Bytes) returns (r: Option<seq<(bool, Bytes)>>)
    ensures r == var all := CertificatesIn(blocks);
                 if exists c :: c in all && keys.certificateKey(c).None? then None else Some(Flagged(keys, all, key))
  {
    ghost var all := CertificatesIn(blocks);
    var certificates: seq<(bool, Bytes)> := [];
    for i := 0 to |blocks|
      invariant certificates == Flagged(keys, CertificatesIn(blocks[..i]), key)
      invariant forall c :: c in CertificatesIn(blocks[..i]) ==> keys.certificateKey(c).Some?
    {
      var block := blocks[i];
      assert blocks[..i + 1][..i] == blocks[..i];
      if block.tag == CERTIFICATE_TAG {
        var spki := keys.certificateKey(block.contents);
        if spki.None? {
          CertificatesPrefix(blocks, i + 1);
          assert block.contents in CertificatesIn(blocks[..i + 1]);
          assert block.contents in all;
          return None;
        }
        certificates := certificates + [(spki.value == keys.publicKey(key), block.contents)];
      }
    }
    assert blocks[..|blocks|] == blocks;
    return Some(certificates);
  }

  /** The signer's certificate is removed from its place and put in front. */
  method MoveLeafFirst(keys: Keys, ghost all: seq<Bytes>, flagged: seq<(bool, Bytes)>, key: Bytes)
    returns (r: Option<seq<Bytes>>)
    requires flagged == Flagged(keys, all, key)
    ensures r == var leaf := FirstMatch(keys, all, key);
                 if leaf.None? then None else Some(LeafFirst(all, leaf.value))
  {
    var index := 0;
    while index < |flagged| && !flagged[index].0
      invariant index <= |flagged|
      invariant forall k :: 0 <= k < index ==> !Matches(keys, all[k], key)
    {
      index := index + 1;
    }
    if index == |flagged| {
      return None;
    }
    assert flagged[index].0;
    assert FirstMatch(keys, all, key) == Some(index);
    var rest := flagged[..index] + flagged[index + 1..];
    var ordered := [flagged[index].1];
    for k := 0 to |rest|
      invariant ordered == LeafFirst(all, index)[..k + 1]
    {
      RestAt(keys, all, key, index, k);
      ordered := ordered + [rest[k].1];
    }
    assert ordered == LeafFirst(all, index);
    return Some(ordered);
  }

  lemma RestAt(keys: Keys, all: seq<Bytes>, key: Bytes, index: nat, k: nat)
    requires index < |all| && k < |all| - 1
    ensures
      var flagged := Flagged(keys, all, key);
      (flagged[..index] + flagged[index + 1..])[k].1 == LeafFirst(all, index)[k + 1]
  {
    hide Matches;
    var at := if k < index then k else k + 1;
    var flagged := Flagged(keys, all, key);
    assert (flagged[..index] + flagged[index + 1..])[k] == flagged[at];
    assert LeafFirst(all, index)[k + 1] == all[at];
  }

  /** `load_signing_identity`. */
  method LoadSigningIdentity(keys: Keys, p12: Bytes, password: Bytes, chain: Bytes)
    returns (r: Result<SigningIdentity, MaterialError>)
    ensures r == IdentityOf(keys, p12, password, chain)
  {
    hide CertificatesIn, FirstMatch, LeafFirst;
    var privateKey := keys.openP12(p12, password);
    if privateKey.Err? {
      return Err(privateKey.error);
    }
    var key := privateKey.value.key;
    var blocks := keys.parsePem(chain);
    if blocks.None? {
      return Err(CertificateInvalid);
    }
    var certificates := CollectCertificates(keys, blocks.value, key);
    if certificates.None? {
      return Err(CertificateInvalid);
    }
    var ordered := MoveLeafFirst(keys, CertificatesIn(blocks.value), certificates.value, key);
    if ordered.None? {
      return Err(MatchingCertificateNotFound);
    }
    return Ok(SigningIdentity(privateKey.value.alias, key, ordered.value));
  }

  lemma {:induction false} CertificatesPrefix(blocks: seq<PemBlock>, i: nat)
    requires i <= |blocks|
    ensures CertificatesIn(blocks[..i]) <= CertificatesIn(blocks)
    decreases |blocks|
  {
    if i == |blocks| {
      assert blocks[..i] == blocks;
    } else {
      assert blocks[..|blocks| - 1][..i] == blocks[..i];
      CertificatesPrefix(blocks[..|blocks| - 1], i);
    }
  }

  /** A loaded identity starts with a certificate of the P12's own key, and its certificates are
      those of the chain; it exists exactly when the P12 opens and the chain is readable and
      contains such a certificate. */
  lemma LoadedIdentity(keys: Keys, p12: Bytes, password: Bytes, chain: Bytes)
    ensures
      var r := IdentityOf(keys, p12, password, chain);
      && (r.Ok? ==>
            && keys.openP12(p12, password).Ok? && keys.parsePem(chain).Some?
            && r.value.certificates != []
            && Matches(keys, r.value.certificates[0], keys.openP12(p12, password).value.key)
            && multiset(r.value.certificates) == multiset(CertificatesIn(keys.parsePem(chain).value)))
      && (r.Ok? <==>
            && keys.openP12(p12, password).Ok? && keys.parsePem(chain).Some?
            && var certificates := CertificatesIn(keys.parsePem(chain).value);
               && (forall c :: c in certificates ==> keys.certificateKey(c).Some?)
               && exists c :: c in certificates && Matches(keys, c, keys.openP12(p12, password).value.key))
  {
    if keys.openP12(p12, password).Ok? && keys.parsePem(chain).Some? {
      var certificates := CertificatesIn(keys.parsePem(chain).value);
      var leaf := FirstMatch(keys, certificates, keys.openP12(p12, password).value.key);
      if leaf.Some? {
        var i := leaf.value;
        assert certificates[i] in certificates;
        assert certificates == certificates[..i] + [certificates[i]] + certificates[i + 1..];
      }
    }
  }

  /** The contents of the blocks with the tag "CERTIFICATE". */
  function Tagged(blocks: seq<PemBlock>): seq<Bytes> {
    if blocks == [] then []
    else if blocks[0].tag == [0x43, 0x45, 0x52, 0x54, 0x49, 0x46, 0x49, 0x43, 0x41, 0x54, 0x45] then
      [blocks[0].contents] + Tagged(blocks[1..])
    else Tagged(blocks[1..])
  }

  lemma {:induction false} TaggedSnoc(blocks: seq<PemBlock>, last: PemBlock)
    ensures Tagged(blocks + [last]) == Tagged(blocks) + if last.tag == CERTIFICATE_TAG then [last.contents] else []
  {
    if blocks == [] {
      assert blocks + [last] == [last];
      assert [last][1..] == [];
    } else {
      assert (blocks + [last])[1..] == blocks[1..] + [last];
      TaggedSnoc(blocks[1..], last);
    }
  }

  lemma {:induction false} CertificatesAreTagged(blocks: seq<PemBlock>)
    ensures CertificatesIn(blocks) == Tagged(blocks)
    decreases |blocks|
  {
    if blocks != [] {
      var n := |blocks| - 1;
      assert blocks == blocks[..n] + [blocks[n]];
      CertificatesAreTagged(blocks[..n]);
      TaggedSnoc(blocks[..n], blocks[n]);
    }
  }

  /** The first certificate of the key comes first, the others keep their order behind it. */
  predicate IsLeafFirst(keys: Keys, certificates: seq<Bytes>, key: Bytes, ordered: seq<Bytes>) {
    && |ordered| == |certificates|
    && exists leaf :: 0 <= leaf < |certificates|
         && keys.certificateKey(certificates[leaf]) == Some(keys.publicKey(key))
         && (forall k :: 0 <= k < leaf ==> keys.certificateKey(certificates[k]) != Some(keys.publicKey(key)))
         && ordered[0] == certificates[leaf]
         && forall k :: 0 < k < |ordered| ==> ordered[k] == certificates[if k <= leaf then k - 1 else k]
  }

  /** The whole outcome: alias and key of the P12, and the certificates of the chain, leaf first; or the first of
      three errors. */
  lemma IdentityExactly(keys: Keys, p12: Bytes, password: Bytes, chain: Bytes)
    ensures
      var r := IdentityOf(keys, p12, password, chain);
      var unlocked := keys.openP12(p12, password);
      if unlocked.Err? then r == Err(unlocked.error)
      else if keys.parsePem(chain).None? then r == Err(CertificateInvalid)
      else
        var certificates := Tagged(keys.parsePem(chain).value);
        if exists c :: c in certificates && keys.certificateKey(c).None? then r == Err(CertificateInvalid)
        else if r.Err? then
          && r.error == MatchingCertificateNotFound
          && forall c :: c in certificates ==> keys.certificateKey(c) != Some(keys.publicKey(unlocked.value.key))
        else
          && r.value.alias == unlocked.value.alias && r.value.key == unlocked.value.key
          && IsLeafFirst(keys, certificates, unlocked.value.key, r.value.certificates)
  {
    if keys.openP12(p12, password).Ok? && keys.parsePem(chain).Some? {
      CertificatesAreTagged(keys.parsePem(chain).value);
      var certificates := CertificatesIn(keys.parsePem(chain).value);
      var leaf := FirstMatch(keys, certificates, keys.openP12(p12, password).value.key);
      if leaf.Some? {
        LeafFirstPlaces(certificates, leaf.value);
      }
    }
  }

  lemma LeafFirstPlaces(certificates: seq<Bytes>, leaf: nat)
    requires leaf < |certificates|
    ensures
      var ordered := LeafFirst(certificates, leaf);
      && |ordered| == |certificates| && ordered[0] == certificates[leaf]
      && forall k :: 0 < k < |ordered| ==> ordered[k] == certificates[if k <= leaf then k - 1 else k]
  {
  }
}
