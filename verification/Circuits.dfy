/** The Noir circuit: five constraint sets behind one selector, over the integers modulo p.
    `pedersen` stands for the first coordinate of the hash of a list of field elements. */
module Circuits {
  import opened Modular

  type Hash = seq<int> -> int

  const SELECTOR_DAC := 1
  const SELECTOR_PAI := 2
  const SELECTOR_PAA := 3
  const SELECTOR_DEVICE_IDENTITY := 4
  const SELECTOR_COMPLIANCE := 5

  // ---------- field arithmetic

  predicate InField(p: int, x: int) {
    0 <= x < p
  }

  function Add(p: int, x: int, y: int): int
    requires p > 0
  {
    (x + y) % p
  }

  function Sub(p: int, x: int, y: int): int
    requires p > 0
  {
    (x - y) % p
  }

  function Mul(p: int, x: int, y: int): int
    requires p > 0
  {
    (x * y) % p
  }

  // ---------- the constraint sets

  function DerivePublic(pedersen: Hash, privateKey: int): int {
    pedersen([privateKey])
  }

  predicate VerifyDac(p: int, pedersen: Hash, dacPrivateKey: int, deviceSecret: int,
                      dacPublicKey: int, paiPublicKey: int, serialNumber: int)
    requires p > 0
  {
    var derivedPub := DerivePublic(pedersen, dacPrivateKey);
    var keyMatch := derivedPub == dacPublicKey;
    var keyNonzero := dacPrivateKey != 0;
    var secretNonzero := deviceSecret != 0;
    var serialNonzero := serialNumber != 0;
    var keysDistinct := dacPublicKey != paiPublicKey;
    var certPair := pedersen([dacPublicKey, paiPublicKey]);
    var deviceBinding := pedersen([deviceSecret, serialNumber]);
    var certCommit := pedersen([certPair, deviceBinding]);
    var certCheck := pedersen([certPair, deviceBinding]);
    var commitOk := certCommit == certCheck;
    var authLeft := Add(p, dacPrivateKey, serialNumber);
    var authRight := Add(p, deviceSecret, serialNumber);
    var authLink := authLeft == authRight;
    keyMatch && keyNonzero && secretNonzero && serialNonzero && keysDistinct && commitOk && authLink
  }

  predicate VerifyPai(p: int, pedersen: Hash, paiPrivateKey: int, paiPublicKey: int, paaPublicKey: int,
                      vendorId: int, productId: int)
    requires p > 0
  {
    var derivedPub := DerivePublic(pedersen, paiPrivateKey);
    var keyMatch := derivedPub == paiPublicKey;
    var keyNonzero := paiPrivateKey != 0;
    var vendorNonzero := vendorId != 0;
    var productNonzero := productId != 0;
    var keysDistinct := paiPublicKey != paaPublicKey;
    var idsDistinct := vendorId != productId;
    var vpCommit := pedersen([vendorId, productId]);
    var certBinding := pedersen([paiPublicKey, vpCommit]);
    var certRecheck := pedersen([paiPublicKey, vpCommit]);
    var commitOk := certBinding == certRecheck;
    var vpPair := pedersen([paiPublicKey, paaPublicKey]);
    var vpChain := pedersen([vpPair, vpCommit]);
    var rootCheck := pedersen([vpPair, vpCommit]);
    var chainOk := vpChain == rootCheck;
    var metadataLink := Mul(p, vendorId, Add(p, productId, 1));
    var metadataCheck := Add(p, Mul(p, vendorId, productId), vendorId);
    var metadataOk := metadataLink == metadataCheck;
    keyMatch && keyNonzero && vendorNonzero && productNonzero && keysDistinct && idsDistinct
    && commitOk && chainOk && metadataOk
  }

  predicate VerifyPaa(p: int, pedersen: Hash, paaPublicKey: int, paaSerialNumber: int, trustedRootHash: int)
    requires p > 0
  {
    var keyNonzero := paaPublicKey != 0;
    var serialNonzero := paaSerialNumber != 0;
    var rootNonzero := trustedRootHash != 0;
    var rootLeaf := pedersen([paaPublicKey, paaSerialNumber]);
    var leafRecheck := pedersen([paaPublicKey, paaSerialNumber]);
    var leafOk := rootLeaf == leafRecheck;
    var rooted := rootLeaf == trustedRootHash;
    var selfSigHash := pedersen([paaPublicKey, trustedRootHash]);
    var selfSigRehash := pedersen([paaPublicKey, trustedRootHash]);
    var sigOk := selfSigHash == selfSigRehash;
    var identityLeft := Mul(p, Sub(p, paaPublicKey, 1), Sub(p, paaSerialNumber, 1));
    var product := Mul(p, paaPublicKey, paaSerialNumber);
    var identityRight := Add(p, Sub(p, Sub(p, product, paaPublicKey), paaSerialNumber), 1);
    var identityOk := identityLeft == identityRight;
    keyNonzero && serialNonzero && rootNonzero && leafOk && rooted && sigOk && identityOk
  }

  predicate ProveDeviceIdentity(p: int, pedersen: Hash, deviceSecret: int, hwFingerprint: int,
                                devicePublicKey: int, deviceType: int, firmwareVersion: int)
    requires p > 0
  {
    var derivedPub := pedersen([deviceSecret]);
    var keyMatch := derivedPub == devicePublicKey;
    var secretNonzero := deviceSecret != 0;
    var fpNonzero := hwFingerprint != 0;
    var typeNonzero := deviceType != 0;
    var fwNonzero := firmwareVersion != 0;
    var identityCommit := pedersen([devicePublicKey, deviceType, firmwareVersion]);
    var identityRecheck := pedersen([devicePublicKey, deviceType, firmwareVersion]);
    var commitOk := identityCommit == identityRecheck;
    var fingerprintBinding := pedersen([hwFingerprint, deviceSecret]);
    var bindingRecompute := pedersen([hwFingerprint, deviceSecret]);
    var bindingOk := fingerprintBinding == bindingRecompute;
    var hwCommit := pedersen([hwFingerprint, deviceType]);
    var fwCommit := pedersen([devicePublicKey, firmwareVersion]);
    var deviceProof := pedersen([hwCommit, fwCommit]);
    var deviceVerify := pedersen([hwCommit, fwCommit]);
    var proofOk := deviceProof == deviceVerify;
    var identitySum := Add(p, Add(p, Add(p, deviceSecret, hwFingerprint), deviceType), firmwareVersion);
    var identityProduct := Mul(p, Mul(p, Mul(p, deviceSecret, hwFingerprint), deviceType), firmwareVersion);
    var identityLink := Add(p, identitySum, identityProduct);
    var identityExpected := Add(p, identitySum, identityProduct);
    var linkOk := identityLink == identityExpected;
    keyMatch && secretNonzero && fpNonzero && typeNonzero && fwNonzero && commitOk && bindingOk && proofOk && linkOk
  }

  predicate ProveCompliance(p: int, pedersen: Hash, firmwareHash: int, complianceData: int,
                            complianceVersion: int, matterSpecVersion: int, isCompliant: int)
    requires p > 0
  {
    var fwNonzero := firmwareHash != 0;
    var cdNonzero := complianceData != 0;
    var cvNonzero := complianceVersion != 0;
    var mvNonzero := matterSpecVersion != 0;
    var fwMatch := firmwareHash == complianceData;
    var hashCommit := pedersen([firmwareHash, complianceVersion]);
    var hashRecompute := pedersen([firmwareHash, complianceVersion]);
    var commitOk := hashCommit == hashRecompute;
    var dataCommit := pedersen([complianceData, matterSpecVersion]);
    var dataRecompute := pedersen([complianceData, matterSpecVersion]);
    var dataOk := dataCommit == dataRecompute;
    var combined := pedersen([hashCommit, dataCommit]);
    var combinedCheck := pedersen([hashCommit, dataCommit]);
    var combinedOk := combined == combinedCheck;
    var specPoly := Add(p, Mul(p, complianceVersion, 2), matterSpecVersion);
    var specBase := Mul(p, matterSpecVersion, complianceVersion);
    var specLink := Add(p, specPoly, specBase);
    var specExpected := Add(p, specBase, specPoly);
    var specOk := specLink == specExpected;
    var allChecks := fwNonzero && cdNonzero && cvNonzero && mvNonzero && fwMatch && commitOk && dataOk
                     && combinedOk && specOk;
    var compliantField := if allChecks then 1 else 0;
    compliantField == isCompliant
  }

  // ---------- the circuit

  datatype Private = Private(
    selector: int, dacPrivateKey: int, deviceSecret: int, paiPrivateKey: int,
    hwFingerprint: int, firmwareHash: int, complianceData: int)

  datatype Public = Public(
    dacPublicKey: int, paiPublicKey: int, serialNumber: int, paaPublicKey: int, vendorId: int, productId: int,
    paaSerialNumber: int, trustedRootHash: int, devicePublicKey: int, deviceType: int, firmwareVersion: int,
    complianceVersion: int, matterSpecVersion: int, isCompliant: int)

  predicate PrivateInField(p: int, w: Private) {
    && InField(p, w.selector) && InField(p, w.dacPrivateKey) && InField(p, w.deviceSecret)
    && InField(p, w.paiPrivateKey) && InField(p, w.hwFingerprint) && InField(p, w.firmwareHash)
    && InField(p, w.complianceData)
  }

  predicate PublicInField(p: int, x: Public) {
    && InField(p, x.dacPublicKey) && InField(p, x.paiPublicKey) && InField(p, x.serialNumber)
    && InField(p, x.paaPublicKey) && InField(p, x.vendorId) && InField(p, x.productId)
    && InField(p, x.paaSerialNumber) && InField(p, x.trustedRootHash) && InField(p, x.devicePublicKey)
    && InField(p, x.deviceType) && InField(p, x.firmwareVersion) && InField(p, x.complianceVersion)
    && InField(p, x.matterSpecVersion) && InField(p, x.isCompliant)
  }

  /** The constraints of `main`: a proof exists exactly when they hold. */
  predicate Accepts(p: int, pedersen: Hash, w: Private, x: Public)
    requires p > 0
  {
    var s := w.selector;
    var selectorMatch := s == SELECTOR_DAC || s == SELECTOR_PAI || s == SELECTOR_PAA
                         || s == SELECTOR_DEVICE_IDENTITY || s == SELECTOR_COMPLIANCE;
    var ok :=
      if s == SELECTOR_DAC then
        VerifyDac(p, pedersen, w.dacPrivateKey, w.deviceSecret, x.dacPublicKey, x.paiPublicKey, x.serialNumber)
      else if s == SELECTOR_PAI then
        VerifyPai(p, pedersen, w.paiPrivateKey, x.paiPublicKey, x.paaPublicKey, x.vendorId, x.productId)
      else if s == SELECTOR_PAA then
        VerifyPaa(p, pedersen, x.paaPublicKey, x.paaSerialNumber, x.trustedRootHash)
      else if s == SELECTOR_DEVICE_IDENTITY then
        ProveDeviceIdentity(p, pedersen, w.deviceSecret, w.hwFingerprint,
                            x.devicePublicKey, x.deviceType, x.firmwareVersion)
      else if s == SELECTOR_COMPLIANCE then
        ProveCompliance(p, pedersen, w.firmwareHash, w.complianceData,
                        x.complianceVersion, x.matterSpecVersion, x.isCompliant)
      else false;
    selectorMatch && ok
  }

  // ---------- the reduced relation

  predicate DacRelation(pedersen: Hash, w: Private, x: Public) {
    && w.dacPrivateKey != 0 && w.deviceSecret == w.dacPrivateKey
    && pedersen([w.dacPrivateKey]) == x.dacPublicKey
    && x.serialNumber != 0 && x.dacPublicKey != x.paiPublicKey
  }

  predicate PaiRelation(pedersen: Hash, w: Private, x: Public) {
    && w.paiPrivateKey != 0 && pedersen([w.paiPrivateKey]) == x.paiPublicKey
    && x.paiPublicKey != x.paaPublicKey
    && x.vendorId != 0 && x.productId != 0 && x.vendorId != x.productId
  }

  predicate PaaRelation(pedersen: Hash, x: Public) {
    && x.paaPublicKey != 0 && x.paaSerialNumber != 0 && x.trustedRootHash != 0
    && pedersen([x.paaPublicKey, x.paaSerialNumber]) == x.trustedRootHash
  }

  predicate IdentityRelation(pedersen: Hash, w: Private, x: Public) {
    && w.deviceSecret != 0 && pedersen([w.deviceSecret]) == x.devicePublicKey
    && w.hwFingerprint != 0 && x.deviceType != 0 && x.firmwareVersion != 0
  }

  predicate Compliant(w: Private, x: Public) {
    w.firmwareHash != 0 && w.firmwareHash == w.complianceData && x.complianceVersion != 0 && x.matterSpecVersion != 0
  }

  predicate Relation(pedersen: Hash, w: Private, x: Public) {
    match w.selector
    case 1 => DacRelation(pedersen, w, x)
    case 2 => PaiRelation(pedersen, w, x)
    case 3 => PaaRelation(pedersen, x)
    case 4 => IdentityRelation(pedersen, w, x)
    case 5 => x.isCompliant == if Compliant(w, x) then 1 else 0
    case _ => false
  }

  // ---------- the polynomial identities

  lemma MetadataIdentity(p: int, v: int, d: int)
    requires p > 0
    ensures Mul(p, v, Add(p, d, 1)) == Add(p, Mul(p, v, d), v)
  {
    MulReduce(v, d + 1, p);
    AddReduce(v * d, v, p);
    assert v * (d + 1) == v * d + v;
  }

  lemma SelfIdentity(p: int, k: int, s: int)
    requires p > 0
    ensures Mul(p, Sub(p, k, 1), Sub(p, s, 1)) == Add(p, Sub(p, Sub(p, Mul(p, k, s), k), s), 1)
  {
    var a, b := (k - 1) % p, (s - 1) % p;
    MulReduce(a, s - 1, p);
    MulReduce(s - 1, k - 1, p);
    assert a * (s - 1) == (s - 1) * a;
    AddReduce(k * s, -k, p);
    AddReduce(k * s - k, -s, p);
    AddReduce(k * s - k - s, 1, p);
    assert (s - 1) * (k - 1) == k * s - k - s + 1;
  }

  // ---------- each constraint set means its reduced relation

  lemma DacMeans(p: int, pedersen: Hash, w: Private, x: Public)
    requires p > 0 && PrivateInField(p, w)
    ensures VerifyDac(p, pedersen, w.dacPrivateKey, w.deviceSecret, x.dacPublicKey, x.paiPublicKey, x.serialNumber)
        <==> DacRelation(pedersen, w, x)
  {
    if Add(p, w.dacPrivateKey, x.serialNumber) == Add(p, w.deviceSecret, x.serialNumber) {
      AddCancel(w.dacPrivateKey, w.deviceSecret, x.serialNumber, p);
    }
  }

  /** For every modulus above 5, every hash and all field inputs, the circuit accepts exactly the
      reduced relation: the recomputed hashes and polynomial identities constrain nothing. */
  lemma AcceptsIff(p: int, pedersen: Hash, w: Private, x: Public)
    requires p > 5 && PrivateInField(p, w) && PublicInField(p, x)
    ensures Accepts(p, pedersen, w, x) <==> Relation(pedersen, w, x)
  {
    if w.selector == SELECTOR_DAC {
      DacMeans(p, pedersen, w, x);
    } else if w.selector == SELECTOR_PAI {
      MetadataIdentity(p, x.vendorId, x.productId);
    } else if w.selector == SELECTOR_PAA {
      SelfIdentity(p, x.paaPublicKey, x.paaSerialNumber);
    } else if w.selector == SELECTOR_COMPLIANCE {
      var poly := Add(p, Mul(p, x.complianceVersion, 2), x.matterSpecVersion);
      var base := Mul(p, x.matterSpecVersion, x.complianceVersion);
      assert poly + base == base + poly;
    }
  }

  // ---------- consequences

  /** In compliance mode exactly one claim is accepted, whatever the other inputs: 1 when the device is
      compliant and 0 when it is not. */
  lemma OneClaimAccepted(p: int, pedersen: Hash, w: Private, x: Public)
    requires p > 5 && PrivateInField(p, w) && PublicInField(p, x) && w.selector == SELECTOR_COMPLIANCE
    ensures forall c :: InField(p, c) ==>
      (Accepts(p, pedersen, w, x.(isCompliant := c)) <==> c == if Compliant(w, x) then 1 else 0)
  {
    forall c | InField(p, c)
      ensures Accepts(p, pedersen, w, x.(isCompliant := c)) <==> c == if Compliant(w, x) then 1 else 0
    {
      AcceptsIff(p, pedersen, w, x.(isCompliant := c));
      assert Compliant(w, x.(isCompliant := c)) == Compliant(w, x);
    }
  }

  /** Outside compliance mode the public claim is not constrained at all. */
  lemma ClaimIsFreeElsewhere(p: int, pedersen: Hash, w: Private, x: Public, c: int)
    requires p > 5 && PrivateInField(p, w) && PublicInField(p, x) && InField(p, c)
    requires w.selector != SELECTOR_COMPLIANCE
    ensures Accepts(p, pedersen, w, x.(isCompliant := c)) <==> Accepts(p, pedersen, w, x)
  {
    AcceptsIff(p, pedersen, w, x);
    AcceptsIff(p, pedersen, w, x.(isCompliant := c));
  }

  ghost predicate InjectiveOnSingles(p: int, pedersen: Hash) {
    forall a, b :: InField(p, a) && InField(p, b) && pedersen([a]) == pedersen([b]) ==> a == b
  }

  /** With a hash injective on single elements, the public inputs determine the private keys: two accepted
      DAC witnesses share key and device secret, two PAI witnesses the key, two identity witnesses the
      secret. */
  lemma WitnessUnique(p: int, pedersen: Hash, v: Private, w: Private, x: Public)
    requires p > 5 && PrivateInField(p, v) && PrivateInField(p, w) && PublicInField(p, x)
    requires InjectiveOnSingles(p, pedersen) && v.selector == w.selector
    requires Accepts(p, pedersen, v, x) && Accepts(p, pedersen, w, x)
    ensures v.selector == SELECTOR_DAC ==> v.dacPrivateKey == w.dacPrivateKey && v.deviceSecret == w.deviceSecret
    ensures v.selector == SELECTOR_PAI ==> v.paiPrivateKey == w.paiPrivateKey
    ensures v.selector == SELECTOR_DEVICE_IDENTITY ==> v.deviceSecret == w.deviceSecret
  {
    AcceptsIff(p, pedersen, v, x);
    AcceptsIff(p, pedersen, w, x);
  }

  /** The hardware fingerprint is not bound: any other non-zero fingerprint is accepted just as well. */
  lemma FingerprintIsFree(p: int, pedersen: Hash, w: Private, x: Public, f: int)
    requires p > 5 && PrivateInField(p, w) && PublicInField(p, x) && InField(p, f)
    requires w.selector == SELECTOR_DEVICE_IDENTITY && Accepts(p, pedersen, w, x)
    ensures Accepts(p, pedersen, w.(hwFingerprint := f), x) <==> f != 0
  {
    AcceptsIff(p, pedersen, w, x);
    AcceptsIff(p, pedersen, w.(hwFingerprint := f), x);
  }

  /** Every relation can be met: for each selector there are inputs that the circuit accepts. */
  lemma EverySelectorAccepts(p: int, pedersen: Hash, selector: int)
    requires p > 5 && 1 <= selector <= 5
    requires forall xs :: InField(p, pedersen(xs))
    requires selector == SELECTOR_PAA ==> exists k, s :: 0 < k < p && 0 < s < p && pedersen([k, s]) != 0
    ensures exists w, x ::
      PrivateInField(p, w) && PublicInField(p, x) && w.selector == selector && Accepts(p, pedersen, w, x)
  {
    var k, s := 1, 1;
    if selector == SELECTOR_PAA {
      k, s :| 0 < k < p && 0 < s < p && pedersen([k, s]) != 0;
    }
    var pub := pedersen([1]);
    var other := if pub == 0 then 1 else 0;
    var paa := if selector == SELECTOR_PAA then k else other;
    var w := Private(selector, 1, 1, 1, 1, 1, 1);
    var x := Public(pub, if selector == SELECTOR_DAC then other else pub, 1, paa, 1, 2, s, pedersen([k, s]),
                    pub, 1, 1, 1, 1, 1);
    AcceptsIff(p, pedersen, w, x);
  }
}
