/**
 * The signed pass packaging pipeline of `generate_signed_pass`: it stages
 * `pass.json`, `icon.png` and `logo.png` in a working directory, writes a
 * manifest of their SHA-1 hex digests, signs the manifest bytes with
 * RSASSA-PKCS1-v1_5 over SHA-1 (section 8.2 of RFC 8017) under a freshly
 * generated key, issues a self-signed certificate, and zips the five
 * staged files.
 *
 * SHA-1, PKCS#1 signing and image rendering are library code: they appear
 * as the functions of a `Platform` value. The random key, the random
 * certificate serial and the two readings of the clock are an `Entropy`
 * value. The working directory and the ZIP file are objects updated in
 * place.
 */
module IosPassCreator {
  import opened Results
  import opened Hex
  import opened Json

  // ---------------------------------------------------------------------
  // Abstract collaborators.

  /** A SHA-1 digest is 20 bytes long. */
  type Sha1Digest = d: Bytes | |d| == 20
    witness [0, 0, 0, 0, 0, 0, 0, 0, 0, 0, 0, 0, 0, 0, 0, 0, 0, 0, 0, 0]

  datatype RsaPrivateKey = RsaPrivateKey(publicExponent: nat, keySize: nat, material: nat)
  datatype RsaPublicKey = RsaPublicKey(publicExponent: nat, keySize: nat, material: nat)

  /** The public half of a generated key pair. */
  function PublicKey(key: RsaPrivateKey): RsaPublicKey {
    RsaPublicKey(key.publicExponent, key.keySize, key.material)
  }

  datatype Platform = Platform(
    /** The 20-byte SHA-1 digest of some data. */
    sha1: Bytes -> Sha1Digest,
    /** An RSA signature with PKCS #1 v1.5 padding over the SHA-1 digest of the data. */
    signPkcs1v15Sha1: (RsaPrivateKey, Bytes) -> Bytes,
    /** The PNG bytes of a 100 by 100 blue image with the given label drawn in white. */
    renderImage: string -> Bytes)

  /** What one run draws from the outside world. */
  datatype Entropy = Entropy(
    /** the random prime material of the generated RSA key */
    keyMaterial: nat,
    /** the random certificate serial number */
    certSerial: nat,
    /** the first clock reading (UTC), in microseconds since the epoch */
    firstNow: int,
    /** the second clock reading (UTC), in microseconds since the epoch */
    secondNow: int)

  // ---------------------------------------------------------------------
  // Constants of the pass format.

  const PassDir: string := "pass_output"
  const PassTypeIdentifier: string := "pass.com.example.event"
  const TeamIdentifier: string := "ABCDE12345"
  const OrganizationName: string := "Kai Events"
  const Description: string := "Event Ticket"
  const BarcodeFormat: string := "PKBarcodeFormatQR"
  const BarcodeEncoding: string := "iso-8859-1"

  /** The entry names of the archive, in the order they are written. */
  const ArchiveNames: seq<string> := ["pass.json", "icon.png", "logo.png", "manifest.json", "signature"]

  /** The resources the manifest covers. */
  const ResourceNames: seq<string> := ["pass.json", "icon.png", "logo.png"]

  function StagedPath(name: string): string {
    PassDir + "/" + name
  }

  /** The files a run writes into the working directory. */
  const StagedPaths: set<string> :=
    {StagedPath("pass.json"), StagedPath("icon.png"), StagedPath("logo.png"),
     StagedPath("manifest.json"), StagedPath("signature")}

  /** Distinct names are staged under distinct paths. */
  lemma StagedPathInjective(a: string, b: string)
    ensures StagedPath(a) == StagedPath(b) ==> a == b
  {
    if StagedPath(a) == StagedPath(b) {
      assert a == StagedPath(a)[|PassDir| + 1..];
    }
  }

  // ---------------------------------------------------------------------
  // The pass record.

  /** One entry of a field group: an object with a key, a label and a value. */
  function PassField(key: string, fieldLabel: string, value: string): Json {
    JObj([("key", JStr(key)), ("label", JStr(fieldLabel)), ("value", JStr(value))])
  }

  /** The `"barcode"` entry of `PASS_DATA`. */
  function BarcodeDescriptor(barcode: string): Json {
    JObj([("message", JStr(barcode)), ("format", JStr(BarcodeFormat)), ("messageEncoding", JStr(BarcodeEncoding))])
  }

  /** The `"eventTicket"` entry of `PASS_DATA`. */
  function EventTicket(name: string, event: string, ticketType: string): Json {
    JObj([
      ("primaryFields", JArr([PassField("event", "Event", event)])),
      ("secondaryFields", JArr([PassField("name", "Name", name), PassField("type", "Ticket Type", ticketType)]))])
  }

  /** The dictionary `PASS_DATA`, keys in the order the literal lists them. */
  function PassData(name: string, event: string, ticketType: string, barcode: string): Json {
    JObj([
      ("formatVersion", JNum(1)),
      ("passTypeIdentifier", JStr(PassTypeIdentifier)),
      ("serialNumber", JStr(barcode)),
      ("teamIdentifier", JStr(TeamIdentifier)),
      ("organizationName", JStr(OrganizationName)),
      ("description", JStr(Description)),
      ("barcode", BarcodeDescriptor(barcode)),
      ("eventTicket", EventTicket(name, event, ticketType))])
  }

  /** The top-level keys of `PASS_DATA`, in the order of the literal. */
  const PassDataKeyNames: seq<string> :=
    ["formatVersion", "passTypeIdentifier", "serialNumber", "teamIdentifier",
     "organizationName", "description", "barcode", "eventTicket"]

  /** The eight top-level keys are distinct: they differ in their first letters. */
  lemma PassDataKeyNamesDistinct()
    ensures Distinct(PassDataKeyNames)
  {
    var ks := PassDataKeyNames;
    assert ks[0][0] == 'f' && ks[1][0] == 'p' && ks[2][0] == 's' && ks[3][0] == 't';
    assert ks[4][0] == 'o' && ks[5][0] == 'd' && ks[6][0] == 'b' && ks[7][0] == 'e';
  }

  /**
   * The top-level keys of the pass record in the order of the literal; the
   * format version is 1 and the pass type, team, organisation and
   * description are the fixed identifiers of the tool.
   */
  lemma PassDataKeys(name: string, event: string, ticketType: string, barcode: string)
    ensures var p := PassData(name, event, ticketType, barcode);
      && p.JObj?
      && Keys(p.members) == ["formatVersion", "passTypeIdentifier", "serialNumber", "teamIdentifier",
                             "organizationName", "description", "barcode", "eventTicket"]
      && Member(p, "formatVersion") == Some(JNum(1))
      && Member(p, "passTypeIdentifier") == Some(JStr("pass.com.example.event"))
      && Member(p, "teamIdentifier") == Some(JStr("ABCDE12345"))
      && Member(p, "organizationName") == Some(JStr("Kai Events"))
      && Member(p, "description") == Some(JStr("Event Ticket"))
  {
    var p := PassData(name, event, ticketType, barcode);
    assert Keys(p.members) == PassDataKeyNames;
    PassDataKeyNamesDistinct();
    FirstWithKeyDistinct(p.members, 0);
    FirstWithKeyDistinct(p.members, 1);
    FirstWithKeyDistinct(p.members, 3);
    FirstWithKeyDistinct(p.members, 4);
    FirstWithKeyDistinct(p.members, 5);
  }

  /** The barcode is a QR code whose message is the barcode argument, in ISO-8859-1. */
  lemma BarcodeDescriptorFields(barcode: string)
    ensures var b := BarcodeDescriptor(barcode);
      && Member(b, "message") == Some(JStr(barcode))
      && Member(b, "format") == Some(JStr("PKBarcodeFormatQR"))
      && Member(b, "messageEncoding") == Some(JStr("iso-8859-1"))
  {
    var b := BarcodeDescriptor(barcode);
    FirstWithKeyAt(b.members, 0);
    FirstWithKeyAt(b.members, 1);
    FirstWithKeyAt(b.members, 2);
  }

  /** The serial number and the barcode message are both the barcode argument. */
  lemma SerialNumberIsBarcodeMessage(name: string, event: string, ticketType: string, barcode: string)
    ensures var p := PassData(name, event, ticketType, barcode);
      && Member(p, "serialNumber") == Some(JStr(barcode))
      && Member(p, "barcode") == Some(BarcodeDescriptor(barcode))
      && Member(BarcodeDescriptor(barcode), "message") == Some(JStr(barcode))
  {
    var p := PassData(name, event, ticketType, barcode);
    assert forall j :: 0 <= j < 2 ==> |p.members[j].0| != |"serialNumber"|;
    FirstWithKeyAt(p.members, 2);
    assert forall j :: 0 <= j < 6 ==> |p.members[j].0| != |"barcode"|;
    FirstWithKeyAt(p.members, 6);
    BarcodeDescriptorFields(barcode);
  }

  /** One primary field, the event; two secondary fields, the name and then the ticket type. */
  lemma EventTicketFields(name: string, event: string, ticketType: string, barcode: string)
    ensures var p := PassData(name, event, ticketType, barcode);
      && Member(p, "eventTicket") == Some(EventTicket(name, event, ticketType))
      && Member(EventTicket(name, event, ticketType), "primaryFields")
         == Some(JArr([PassField("event", "Event", event)]))
      && Member(EventTicket(name, event, ticketType), "secondaryFields")
         == Some(JArr([PassField("name", "Name", name), PassField("type", "Ticket Type", ticketType)]))
  {
    var p := PassData(name, event, ticketType, barcode);
    assert forall j :: 0 <= j < 7 ==> p.members[j].0 != "eventTicket" by {
      assert forall j :: 0 <= j < 7 && j != 5 ==> |p.members[j].0| != |"eventTicket"|;
      assert p.members[5].0[0] != 'e';
    }
    FirstWithKeyAt(p.members, 7);
    var t := EventTicket(name, event, ticketType);
    FirstWithKeyAt(t.members, 0);
    FirstWithKeyAt(t.members, 1);
  }

  // ---------------------------------------------------------------------
  // Text written in text mode.

  function AsciiByte(c: char): byte
    requires c as int < 128
  {
    c as int
  }

  /** The bytes of ASCII text written through `open(path, "w")`: one byte per character. */
  function AsciiBytes(s: string): (bs: Bytes)
    requires IsAscii(s)
    ensures |bs| == |s|
    ensures forall i :: 0 <= i < |s| ==> bs[i] == s[i] as int
  {
    seq(|s|, i requires 0 <= i < |s| => assert s[i] in s; AsciiByte(s[i]))
  }

  /** Bytes read back as text, one character per byte. */
  function BytesText(bs: Bytes): (s: string)
    ensures |s| == |bs|
  {
    seq(|bs|, i requires 0 <= i < |bs| => bs[i] as char)
  }

  lemma BytesTextAsciiBytes(s: string)
    requires IsAscii(s)
    ensures BytesText(AsciiBytes(s)) == s
  {
  }

  /** The bytes `json.dump(PASS_DATA, f)` leaves in `pass.json`. */
  function PassJson(name: string, event: string, ticketType: string, barcode: string): Bytes {
    var text := Dumps(PassData(name, event, ticketType, barcode));
    DumpsIsPrintable(PassData(name, event, ticketType, barcode));
    assert IsAscii(text);
    AsciiBytes(text)
  }

  /** The bytes of `pass.json`, read back as text and parsed, are the pass data again. */
  lemma PassJsonReadsBack(name: string, event: string, ticketType: string, barcode: string)
    ensures ReadJson(BytesText(PassJson(name, event, ticketType, barcode))) == Some(PassData(name, event, ticketType, barcode))
  {
    var p := PassData(name, event, ticketType, barcode);
    DumpsIsPrintable(p);
    BytesTextAsciiBytes(Dumps(p));
    ReadJsonDumps(p);
  }

  /** The bytes `json.dump(manifest, f, indent=4)` leaves in `manifest.json`. */
  function ManifestJson(manifest: seq<(string, string)>): Bytes {
    DumpsIndent4IsAscii(manifest);
    AsciiBytes(DumpsIndent4(manifest))
  }

  // ---------------------------------------------------------------------
  // The pipeline as values.

  /** The three staged resources in staging order. */
  function Resources(platform: Platform, passJson: Bytes): seq<(string, Bytes)> {
    [("pass.json", passJson), ("icon.png", platform.renderImage("Icon")), ("logo.png", platform.renderImage("Logo"))]
  }

  /** Each resource name with the hex SHA-1 of its bytes, in the order the resources are staged. */
  function Manifest(sha1: Bytes -> Sha1Digest, resources: seq<(string, Bytes)>): seq<(string, string)> {
    seq(|resources|, i requires 0 <= i < |resources| => (resources[i].0, ToHex(sha1(resources[i].1))))
  }

  /** The generated RSA key: public exponent 65537, a 2048-bit modulus. */
  function GeneratedKey(entropy: Entropy): RsaPrivateKey {
    RsaPrivateKey(65537, 2048, entropy.keyMaterial)
  }

  /** The entries of the `.pkpass` archive, in the order they are written. */
  function PkPass(platform: Platform, key: RsaPrivateKey, passJson: Bytes): seq<(string, Bytes)> {
    var resources := Resources(platform, passJson);
    var manifestJson := ManifestJson(Manifest(platform.sha1, resources));
    resources + [("manifest.json", manifestJson), ("signature", platform.signPkcs1v15Sha1(key, manifestJson))]
  }

  /** The entry a ZIP reader returns for `name`, if any. */
  function Lookup(entries: seq<(string, Bytes)>, name: string): (r: Option<Bytes>)
    ensures r.Some? <==> exists i :: 0 <= i < |entries| && entries[i].0 == name
    ensures r.Some? ==> exists i :: 0 <= i < |entries| && entries[i] == (name, r.value)
  {
    FirstWithKey(entries, name)
  }

  lemma ArchiveNamesDistinct()
    ensures Distinct(ArchiveNames)
  {
    assert ArchiveNames[0][0] == 'p' && ArchiveNames[4][0] == 's';
    assert ArchiveNames[1][0] == 'i' && ArchiveNames[2][0] == 'l';
  }

  /**
   * The archive holds exactly five entries, in the order `pass.json`,
   * `icon.png`, `logo.png`, `manifest.json`, `signature`, under distinct
   * names; the key and the certificate are not among them.
   */
  lemma PkPassLayout(platform: Platform, key: RsaPrivateKey, passJson: Bytes)
    ensures var entries := PkPass(platform, key, passJson);
      Keys(entries) == ArchiveNames && Distinct(Keys(entries))
      && entries[0] == ("pass.json", passJson)
  {
    var entries := PkPass(platform, key, passJson);
    assert Keys(entries) == ArchiveNames;
    ArchiveNamesDistinct();
  }

  /** In a list of entries with distinct names, looking up entry `i`'s name finds entry `i`. */
  lemma LookupDistinct(entries: seq<(string, Bytes)>, i: nat)
    requires i < |entries| && Distinct(Keys(entries))
    ensures Lookup(entries, entries[i].0) == Some(entries[i].1)
  {
    FirstWithKeyDistinct(entries, i);
  }

  /**
   * The manifest names exactly the archived files other than the manifest
   * and the signature, and each of its values is the 40-character
   * lowercase hex SHA-1 of the bytes archived under that name.
   */
  lemma ManifestMatchesArchive(platform: Platform, key: RsaPrivateKey, passJson: Bytes)
    ensures var entries := PkPass(platform, key, passJson);
      var manifest := Manifest(platform.sha1, entries[..3]);
      && Keys(manifest) == ResourceNames
      && (forall n :: n in Keys(manifest) <==> n in Keys(entries) && n != "manifest.json" && n != "signature")
      && forall i :: 0 <= i < |manifest| ==>
           && Lookup(entries, manifest[i].0).Some?
           && manifest[i].1 == ToHex(platform.sha1(Lookup(entries, manifest[i].0).value))
           && |manifest[i].1| == 40 && IsLowerHex(manifest[i].1)
  {
    var entries := PkPass(platform, key, passJson);
    var manifest := Manifest(platform.sha1, entries[..3]);
    PkPassLayout(platform, key, passJson);
    assert Keys(manifest) == ResourceNames;
    forall i | 0 <= i < |manifest|
      ensures Lookup(entries, manifest[i].0) == Some(entries[i].1)
    {
      LookupDistinct(entries, i);
    }
  }

  /**
   * The signature entry is the PKCS#1 v1.5 / SHA-1 signature, under the
   * given key, of exactly the bytes stored as the manifest entry.
   */
  lemma SignatureCoversManifest(platform: Platform, key: RsaPrivateKey, passJson: Bytes)
    ensures var entries := PkPass(platform, key, passJson);
      && Lookup(entries, "manifest.json").Some?
      && Lookup(entries, "signature")
         == Some(platform.signPkcs1v15Sha1(key, Lookup(entries, "manifest.json").value))
  {
    var entries := PkPass(platform, key, passJson);
    PkPassLayout(platform, key, passJson);
    LookupDistinct(entries, 3);
    LookupDistinct(entries, 4);
  }

  // ---------------------------------------------------------------------
  // What a pass-verification client checks.

  /**
   * A verifying client accepts an archive when the signature verifies
   * against the manifest bytes, the manifest reads back, every manifest
   * entry names an archived file whose recomputed digest equals the
   * recorded one, and every archived file other than the manifest and the
   * signature is listed in the manifest.
   */
  predicate ClientAccepts(entries: seq<(string, Bytes)>, sha1: Bytes -> Sha1Digest,
                          verify: (RsaPublicKey, Bytes, Bytes) -> bool, publicKey: RsaPublicKey)
  {
    var manifestJson := Lookup(entries, "manifest.json");
    var signature := Lookup(entries, "signature");
    && manifestJson.Some? && signature.Some?
    && verify(publicKey, manifestJson.value, signature.value)
    && var manifest := ReadIndent4(BytesText(manifestJson.value));
    && manifest.Some?
    && (forall i :: 0 <= i < |manifest.value| ==>
          var entry := Lookup(entries, manifest.value[i].0);
          entry.Some? && ToHex(sha1(entry.value)) == manifest.value[i].1)
    && (forall i :: 0 <= i < |entries| && entries[i].0 != "manifest.json" && entries[i].0 != "signature" ==>
          entries[i].0 in Keys(manifest.value))
  }

  /**
   * Provided the signature scheme verifies what the matching private key
   * signed, the client accepts the generated archive under the public key
   * of the generated certificate.
   */
  lemma GeneratedPassAccepted(platform: Platform, key: RsaPrivateKey, passJson: Bytes,
                              verify: (RsaPublicKey, Bytes, Bytes) -> bool)
    requires forall k: RsaPrivateKey, m: Bytes :: verify(PublicKey(k), m, platform.signPkcs1v15Sha1(k, m))
    ensures ClientAccepts(PkPass(platform, key, passJson), platform.sha1, verify, PublicKey(key))
  {
    var entries := PkPass(platform, key, passJson);
    var manifest := Manifest(platform.sha1, entries[..3]);
    PkPassLayout(platform, key, passJson);
    ManifestMatchesArchive(platform, key, passJson);
    SignatureCoversManifest(platform, key, passJson);
    LookupDistinct(entries, 3);
    assert Lookup(entries, "manifest.json") == Some(ManifestJson(manifest));
    DumpsIndent4IsAscii(manifest);
    BytesTextAsciiBytes(DumpsIndent4(manifest));
    ReadDumpsIndent4(manifest);
    forall i | 0 <= i < |entries| && entries[i].0 != "manifest.json" && entries[i].0 != "signature"
      ensures entries[i].0 in Keys(manifest)
    {
      assert entries[i].0 == Keys(entries)[i];
    }
  }

  // ---------------------------------------------------------------------
  // The signing identity.

  datatype Name = CommonName(commonName: string)
  datatype HashAlgorithm = Sha1 | Sha256

  datatype Certificate = Certificate(
    subject: Name,
    issuer: Name,
    publicKey: RsaPublicKey,
    serialNumber: nat,
    notValidBefore: int,
    notValidAfter: int,
    signatureHash: HashAlgorithm)

  const ValidityDays: nat := 3650
  const MicrosecondsPerSecond: nat := 1_000_000
  const SecondsPerDay: nat := 86_400

  /**
   * The certificate the builder signs: subject and issuer are the same
   * name, the validity runs from the first reading of the clock to the
   * second reading plus 3650 days, and it is signed with SHA-256.
   */
  function SelfSignedCertificate(key: RsaPrivateKey, entropy: Entropy): Certificate {
    var name := CommonName("Test Certificate");
    Certificate(name, name, PublicKey(key), entropy.certSerial,
                entropy.firstNow,
                entropy.secondNow + ValidityDays * SecondsPerDay * MicrosecondsPerSecond,
                Sha256)
  }

  /**
   * The certificate is self-issued and its window is 3650 days plus the
   * time between the two clock readings: at least 3650 days when the clock
   * did not step back, and strictly more when time passed between them.
   */
  lemma CertificateWindow(key: RsaPrivateKey, entropy: Entropy)
    ensures var c := SelfSignedCertificate(key, entropy);
      && c.issuer == c.subject == CommonName("Test Certificate")
      && c.publicKey == PublicKey(key)
      && c.serialNumber == entropy.certSerial
      && c.signatureHash == Sha256
      && c.notValidAfter - c.notValidBefore
         == ValidityDays * SecondsPerDay * MicrosecondsPerSecond + (entropy.secondNow - entropy.firstNow)
      && (entropy.firstNow <= entropy.secondNow ==>
            c.notValidAfter - c.notValidBefore >= ValidityDays * SecondsPerDay * MicrosecondsPerSecond)
      && (entropy.firstNow < entropy.secondNow ==>
            c.notValidAfter - c.notValidBefore > ValidityDays * SecondsPerDay * MicrosecondsPerSecond)
  {
  }

  /** X.509 validity times carry whole seconds (section 4.1.2.5 of RFC 5280): the fraction is dropped. */
  function EncodedSeconds(micros: int): int {
    micros / MicrosecondsPerSecond
  }

  /** The window survives the encoding: at least 3650 days of whole seconds when the clock did not step back. */
  lemma EncodedCertificateWindow(key: RsaPrivateKey, entropy: Entropy)
    requires entropy.firstNow <= entropy.secondNow
    ensures var c := SelfSignedCertificate(key, entropy);
      EncodedSeconds(c.notValidAfter) - EncodedSeconds(c.notValidBefore) >= ValidityDays * SecondsPerDay
  {
    var window := ValidityDays * SecondsPerDay;
    var t1, t2 := entropy.firstNow, entropy.secondNow;
    assert (t2 + window * MicrosecondsPerSecond) / MicrosecondsPerSecond == t2 / MicrosecondsPerSecond + window;
    assert t1 / MicrosecondsPerSecond <= t2 / MicrosecondsPerSecond;
  }

  // ---------------------------------------------------------------------
  // The working directory and the archive, as the source updates them.

  /** The working directory `PASS_DIR`: file paths to their contents. */
  class Directory {
    var files: map<string, Bytes>

    constructor (files: map<string, Bytes>)
      ensures this.files == files
    {
      this.files := files;
    }

    /** Writing a whole file: creates or replaces the file at `path`. */
    method WriteFile(path: string, data: Bytes)
      modifies this
      ensures files == old(files)[path := data]
    {
      files := files[path := data];
    }

    /** Reading a whole file; a missing file is `None`, where Python raises. */
    method ReadFile(path: string) returns (data: Option<Bytes>)
      ensures data == if path in files then Some(files[path]) else None
    {
      data := if path in files then Some(files[path]) else None;
    }
  }

  /** The `.pkpass` file, opened for writing as a new ZIP archive. */
  class ZipArchive {
    const path: string
    var entries: seq<(string, Bytes)>

    constructor (path: string)
      ensures this.path == path && entries == []
    {
      this.path := path;
      entries := [];
    }

    /**
     * Adding a file to the archive: appends the file's current contents
     * under `arcname`; a missing file adds nothing (Python raises).
     */
    method Write(dir: Directory, filename: string, arcname: string) returns (written: bool)
      modifies this
      ensures written == (filename in dir.files)
      ensures entries == if written then old(entries) + [(arcname, dir.files[filename])] else old(entries)
    {
      written := filename in dir.files;
      if written {
        entries := entries + [(arcname, dir.files[filename])];
      }
    }
  }

  /** The nested `sha1_file`: the hex SHA-1 of a file's bytes as read back from disk. */
  method Sha1File(dir: Directory, sha1: Bytes -> Sha1Digest, path: string) returns (hexdigest: Option<string>)
    ensures path in dir.files ==> hexdigest == Some(ToHex(sha1(dir.files[path])))
    ensures path !in dir.files ==> hexdigest == None
    ensures hexdigest.Some? ==> |hexdigest.value| == 40 && IsLowerHex(hexdigest.value)
  {
    var data := dir.ReadFile(path);
    if data.Some? {
      hexdigest := Some(ToHex(sha1(data.value)));
    } else {
      hexdigest := None;
    }
  }

  /** The five staged paths are pairwise distinct. */
  lemma StagedPathsDistinct()
    ensures Distinct(seq(|ArchiveNames|, i requires 0 <= i < |ArchiveNames| => StagedPath(ArchiveNames[i])))
    ensures |StagedPaths| == 5
  {
    var paths := seq(|ArchiveNames|, i requires 0 <= i < |ArchiveNames| => StagedPath(ArchiveNames[i]));
    assert Distinct(paths) by {
      ArchiveNamesDistinct();
      forall i, j | 0 <= i < j < |paths|
        ensures paths[i] != paths[j]
      {
        StagedPathInjective(ArchiveNames[i], ArchiveNames[j]);
      }
    }
    assert paths[0] !in {paths[1], paths[2], paths[3], paths[4]};
    assert paths[1] !in {paths[2], paths[3], paths[4]};
    assert paths[2] !in {paths[3], paths[4]};
    assert StagedPaths == {paths[0]} + ({paths[1]} + ({paths[2]} + {paths[3], paths[4]}));
  }

  /** Lines 65-76: `pass.json`, `icon.png` and `logo.png` are written into the working directory. */
  method StageResources(dir: Directory, platform: Platform, passJson: Bytes)
    modifies dir
    ensures dir.files == old(dir.files)[StagedPath("pass.json") := passJson]
                                       [StagedPath("icon.png") := platform.renderImage("Icon")]
                                       [StagedPath("logo.png") := platform.renderImage("Logo")]
  {
    dir.WriteFile(StagedPath("pass.json"), passJson);
    dir.WriteFile(StagedPath("icon.png"), platform.renderImage("Icon"));
    dir.WriteFile(StagedPath("logo.png"), platform.renderImage("Logo"));
  }

  /** The staged files of the given names, as (name, bytes) pairs. */
  function StagedEntries(files: map<string, Bytes>, names: seq<string>): (entries: seq<(string, Bytes)>)
    requires forall n :: n in names ==> StagedPath(n) in files
    ensures Keys(entries) == names
  {
    seq(|names|, i requires 0 <= i < |names| => (names[i], files[StagedPath(names[i])]))
  }

  /**
   * Lines 79-89: the digest of each resource as read back from disk, and
   * `manifest.json` written with `indent=4`.
   */
  method WriteManifest(dir: Directory, sha1: Bytes -> Sha1Digest) returns (manifest: seq<(string, string)>)
    requires forall n :: n in ResourceNames ==> StagedPath(n) in dir.files
    modifies dir
    ensures manifest == Manifest(sha1, [("pass.json", old(dir.files)[StagedPath("pass.json")]),
                                        ("icon.png", old(dir.files)[StagedPath("icon.png")]),
                                        ("logo.png", old(dir.files)[StagedPath("logo.png")])])
    ensures dir.files == old(dir.files)[StagedPath("manifest.json") := ManifestJson(manifest)]
  {
    var passDigest := Sha1File(dir, sha1, StagedPath("pass.json"));
    var iconDigest := Sha1File(dir, sha1, StagedPath("icon.png"));
    var logoDigest := Sha1File(dir, sha1, StagedPath("logo.png"));
    manifest := [("pass.json", passDigest.value), ("icon.png", iconDigest.value), ("logo.png", logoDigest.value)];
    dir.WriteFile(StagedPath("manifest.json"), ManifestJson(manifest));
  }

  /** Lines 117-126: the manifest bytes as read back are signed and the signature is staged. */
  method SignManifest(dir: Directory, platform: Platform, key: RsaPrivateKey) returns (signature: Bytes)
    requires StagedPath("manifest.json") in dir.files
    modifies dir
    ensures signature == platform.signPkcs1v15Sha1(key, old(dir.files)[StagedPath("manifest.json")])
    ensures dir.files == old(dir.files)[StagedPath("signature") := signature]
  {
    var manifestData := dir.ReadFile(StagedPath("manifest.json"));
    signature := platform.signPkcs1v15Sha1(key, manifestData.value);
    dir.WriteFile(StagedPath("signature"), signature);
  }

  /** Lines 129-134: a new archive receives the five staged files in order. */
  method PackArchive(dir: Directory, outputPath: string) returns (archive: ZipArchive)
    requires forall n :: n in ArchiveNames ==> StagedPath(n) in dir.files
    ensures fresh(archive) && archive.path == outputPath
    ensures archive.entries == StagedEntries(dir.files, ArchiveNames)
  {
    archive := new ZipArchive(outputPath);
    var ok := archive.Write(dir, StagedPath("pass.json"), "pass.json");
    ok := archive.Write(dir, StagedPath("icon.png"), "icon.png");
    ok := archive.Write(dir, StagedPath("logo.png"), "logo.png");
    ok := archive.Write(dir, StagedPath("manifest.json"), "manifest.json");
    ok := archive.Write(dir, StagedPath("signature"), "signature");
  }

  /** Once the staged files are the resources, their manifest and its signature, the archive is `PkPass`. */
  lemma StagedArchiveIsPkPass(files: map<string, Bytes>, platform: Platform, key: RsaPrivateKey, passJson: Bytes)
    requires forall n :: n in ArchiveNames ==> StagedPath(n) in files
    requires StagedEntries(files, ResourceNames) == Resources(platform, passJson)
    requires files[StagedPath("manifest.json")] == ManifestJson(Manifest(platform.sha1, Resources(platform, passJson)))
    requires files[StagedPath("signature")] == platform.signPkcs1v15Sha1(key, files[StagedPath("manifest.json")])
    ensures StagedEntries(files, ArchiveNames) == PkPass(platform, key, passJson)
  {
    var staged := StagedEntries(files, ArchiveNames);
    assert staged[..3] == StagedEntries(files, ResourceNames);
  }

  /** The directory after the five archive entries have been written to their staged paths in order. */
  function StagedFiles(before: map<string, Bytes>, entries: seq<(string, Bytes)>): map<string, Bytes>
    requires |entries| == 5
  {
    before[StagedPath(entries[0].0) := entries[0].1][StagedPath(entries[1].0) := entries[1].1]
          [StagedPath(entries[2].0) := entries[2].1][StagedPath(entries[3].0) := entries[3].1]
          [StagedPath(entries[4].0) := entries[4].1]
  }

  /**
   * Staging the archive entries adds the five staged paths to the
   * directory, leaves every other file alone, and reading the staged files
   * back in archive order yields the entries.
   */
  lemma StagedFilesHoldEntries(before: map<string, Bytes>, entries: seq<(string, Bytes)>)
    requires |entries| == 5 && Keys(entries) == ArchiveNames
    ensures var after := StagedFiles(before, entries);
      && (forall n :: n in ArchiveNames ==> StagedPath(n) in after)
      && after.Keys == before.Keys + StagedPaths
      && after - StagedPaths == before - StagedPaths
      && StagedEntries(after, ArchiveNames) == entries
  {
    StagedFilesFrame(before, entries);
    StagedFilesRead(before, entries);
  }

  lemma StagedFilesFrame(before: map<string, Bytes>, entries: seq<(string, Bytes)>)
    requires |entries| == 5 && Keys(entries) == ArchiveNames
    ensures StagedFiles(before, entries).Keys == before.Keys + StagedPaths
    ensures StagedFiles(before, entries) - StagedPaths == before - StagedPaths
  {
    assert forall i :: 0 <= i < 5 ==> entries[i].0 == ArchiveNames[i];
    assert StagedPaths == {StagedPath(entries[0].0), StagedPath(entries[1].0), StagedPath(entries[2].0),
                           StagedPath(entries[3].0), StagedPath(entries[4].0)};
  }

  lemma StagedFilesRead(before: map<string, Bytes>, entries: seq<(string, Bytes)>)
    requires |entries| == 5 && Keys(entries) == ArchiveNames
    ensures forall n :: n in ArchiveNames ==> StagedPath(n) in StagedFiles(before, entries)
    ensures StagedEntries(StagedFiles(before, entries), ArchiveNames) == entries
  {
    var after := StagedFiles(before, entries);
    StagedPathsDistinct();
    assert forall i :: 0 <= i < 5 ==> entries[i].0 == ArchiveNames[i];
    assert forall i :: 0 <= i < 5 ==> after[StagedPath(ArchiveNames[i])] == entries[i].1;
  }

  /**
   * Lines 65-126 for given `pass.json` bytes: stages the three resources,
   * writes the manifest of their digests, generates the key and the
   * certificate, and signs the manifest bytes as read back, so that the
   * staged files are the entries of `PkPass`.
   */
  method StageSignedPass(dir: Directory, platform: Platform, entropy: Entropy, passJson: Bytes)
    returns (certificate: Certificate, key: RsaPrivateKey)
    modifies dir
    ensures dir.files == StagedFiles(old(dir.files), PkPass(platform, key, passJson))
    ensures key == GeneratedKey(entropy)
    ensures certificate == SelfSignedCertificate(key, entropy)
  {
    StagedPathsDistinct();
    StageResources(dir, platform, passJson);
    assert [("pass.json", dir.files[StagedPath("pass.json")]),
            ("icon.png", dir.files[StagedPath("icon.png")]),
            ("logo.png", dir.files[StagedPath("logo.png")])] == Resources(platform, passJson);
    var manifest := WriteManifest(dir, platform.sha1);
    key := GeneratedKey(entropy);
    certificate := SelfSignedCertificate(key, entropy);
    var signature := SignManifest(dir, platform, key);
  }

  /**
   * Lines 65-134 for given `pass.json` bytes: the staged and signed files
   * are written into a new archive at `outputPath`.
   */
  method PackSignedPass(dir: Directory, platform: Platform, entropy: Entropy, passJson: Bytes, outputPath: string)
    returns (archive: ZipArchive, certificate: Certificate, key: RsaPrivateKey)
    modifies dir
    ensures fresh(archive) && archive.path == outputPath
    ensures archive.entries == PkPass(platform, key, passJson)
    ensures forall n :: n in ArchiveNames ==> StagedPath(n) in dir.files
    ensures archive.entries == StagedEntries(dir.files, ArchiveNames)
    ensures dir.files.Keys == old(dir.files).Keys + StagedPaths
    ensures dir.files - StagedPaths == old(dir.files) - StagedPaths
    ensures key == GeneratedKey(entropy)
    ensures certificate == SelfSignedCertificate(key, entropy)
  {
    certificate, key := StageSignedPass(dir, platform, entropy, passJson);
    PkPassLayout(platform, key, passJson);
    StagedFilesHoldEntries(old(dir.files), PkPass(platform, key, passJson));
    archive := PackArchive(dir, outputPath);
  }

  /**
   * `generate_signed_pass` up to the e-mail: the pass record for the
   * ticket is serialised into `pass.json` and packed as above. Every
   * archived entry is the staged file of that name, and of the working
   * directory only the five staged files change.
   */
  method GenerateSignedPass(dir: Directory, platform: Platform, entropy: Entropy,
                            name: string, event: string, ticketType: string, barcode: string,
                            outputPath: string)
    returns (archive: ZipArchive, certificate: Certificate, key: RsaPrivateKey)
    modifies dir
    ensures fresh(archive) && archive.path == outputPath
    ensures archive.entries == PkPass(platform, key, PassJson(name, event, ticketType, barcode))
    ensures forall n :: n in ArchiveNames ==> StagedPath(n) in dir.files
    ensures archive.entries == StagedEntries(dir.files, ArchiveNames)
    ensures dir.files.Keys == old(dir.files).Keys + StagedPaths
    ensures dir.files - StagedPaths == old(dir.files) - StagedPaths
    ensures key == GeneratedKey(entropy) && key.publicExponent == 65537 && key.keySize == 2048
    ensures certificate == SelfSignedCertificate(key, entropy)
  {
    var passJson := PassJson(name, event, ticketType, barcode);
    archive, certificate, key := PackSignedPass(dir, platform, entropy, passJson, outputPath);
  }
}
