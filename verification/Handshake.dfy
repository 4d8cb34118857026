/** What makes the server accept or refuse a handshake frame. */
module Handshake {
  import opened Bytes
  import opened Wrappers
  import opened JsonValue
  import opened JsonReader
  import opened JsonGrammar
  import opened JsonRecognition
  import opened JsonWriter
  import opened JsonCanonical

  /** The cryptographic primitives, uninterpreted. `nIndex` is the index computed from a public key, `negHash` the
      hash derived from a public key and its index, `verify` the Ed25519 check of key, signature and message. */
  datatype Crypto = Crypto(base64: string -> Option<Data>, nIndex: Data -> real, negHash: Data -> string,
                           verify: (Data, Data, string) -> bool)

  /** The bytes of a frame taken as text. */
  function TextOf(frame: Data): string { seq(|frame|, i requires 0 <= i < |frame| => frame[i] as char) }

  /** Every byte is one character, with the same code. */
  lemma TextIsTheBytes(f: Data, g: Data)
    ensures |TextOf(f)| == |f| && forall i :: 0 <= i < |f| ==> TextOf(f)[i] as int == f[i]
    ensures TextOf(f) == TextOf(g) ==> f == g
  {
    assert forall i :: 0 <= i < |f| ==> TextOf(f)[i] as int == f[i];
    assert forall i :: 0 <= i < |g| ==> TextOf(g)[i] as int == g[i];
  }

  function GetObjectMember(value: Json, key: string): Option<Json> {
    if value.Object? && key in value.members then Some(value.members[key]) else None
  }

  function GetStringMember(value: Json, key: string): Option<string> {
    match GetObjectMember(value, key)
    case Some(Text(s)) => Some(s)
    case _ => None
  }

  /** A number, or a text that converts to one. */
  function GetNumberMember(floats: Floats, value: Json, key: string): Option<real> {
    match GetObjectMember(value, key)
    case Some(Number(n)) => Some(n)
    case Some(Text(s)) => Stod(floats, s)
    case _ => None
  }

  predicate LooksNegantropic(root: Json) {
    GetObjectMember(root, "publicKey").Some? && GetObjectMember(root, "signature").Some? &&
    GetObjectMember(root, "negHash").Some? && GetObjectMember(root, "nIndex").Some?
  }

  /** The error a signed handshake is refused with. */
  function VerifyNegantropic(floats: Floats, crypto: Crypto, root: Json): Option<string> {
    var publicKeyText := GetStringMember(root, "publicKey");
    var signatureText := GetStringMember(root, "signature");
    var negHash := GetStringMember(root, "negHash");
    if publicKeyText.None? || signatureText.None? || negHash.None? then Some("Missing negantropic handshake fields")
    else
      var publicKey := crypto.base64(publicKeyText.value);
      var signature := crypto.base64(signatureText.value);
      if publicKey.None? || signature.None? then Some("Invalid base64 in handshake")
      else if crypto.negHash(publicKey.value) != negHash.value then Some("Negantropic hash mismatch")
      else if !crypto.verify(publicKey.value, signature.value, CanonicalText(floats, root)) then
        Some("Invalid handshake signature")
      else None
  }

  /** The error `HandleHandshakeFrame` refuses a parsed handshake with. */
  function JudgeRoot(floats: Floats, crypto: Crypto, protocolVersion: string, root: Json): Option<string> {
    if GetStringMember(root, "type") != Some("handshake") then Some("Invalid handshake payload: missing type")
    else if VersionMismatch(protocolVersion, GetStringMember(root, "version")) then Some("Protocol version mismatch")
    else if !LooksNegantropic(root) then None
    else
      match VerifyNegantropic(floats, crypto, root)
      case None => None
      case Some(e) => Some("Invalid handshake signature: " + e)
  }

  /** A missing or empty version is let through. */
  predicate VersionMismatch(protocolVersion: string, version: Option<string>) {
    protocolVersion != "" && version.Some? && version.value != "" && version.value != protocolVersion
  }

  function Judge(floats: Floats, crypto: Crypto, protocolVersion: string, frame: Data): Option<string> {
    match Read(floats, TextOf(frame))
    case Fail(e) => Some("Failed to parse handshake: " + e)
    case Done(root, _) => JudgeRoot(floats, crypto, protocolVersion, root)
  }

  // ---------- what is remembered of an accepted handshake ----------

  datatype Metadata = Metadata(version: Option<string>, nIndex: Option<real>, negHash: Option<string>,
                               tags: map<string, Json>)

  /** What the handshake claims. */
  function BuildMetadata(floats: Floats, root: Json): Metadata {
    Metadata(GetStringMember(root, "version"), GetNumberMember(floats, root, "nIndex"),
             GetStringMember(root, "negHash"), Tags(GetObjectMember(root, "tags")))
  }

  /** Members that are neither texts nor numbers are left out. */
  function Tags(value: Option<Json>): map<string, Json> {
    match value
    case Some(Object(members)) =>
      map key | key in members && (members[key].Text? || members[key].Number?) :: members[key]
    case _ => map[]
  }

  /** Each entry is the member of its name: the version and the hash if they are texts, the index if it is a number or a
      text that converts to one, and of the tags those that are texts or numbers. */
  lemma ClaimsExactly(floats: Floats, members: map<string, Json>, name: string, text: string, x: real, tag: Json)
    ensures var claimed := BuildMetadata(floats, Object(members));
      (claimed.version == Some(text) <==> "version" in members && members["version"] == Text(text)) &&
      (claimed.negHash == Some(text) <==> "negHash" in members && members["negHash"] == Text(text)) &&
      (claimed.nIndex == Some(x) <==>
         "nIndex" in members &&
         (members["nIndex"] == Number(x) ||
          (members["nIndex"].Text? && Stod(floats, members["nIndex"].text) == Some(x)))) &&
      (name in claimed.tags && claimed.tags[name] == tag <==>
         "tags" in members && members["tags"].Object? && name in members["tags"].members &&
         members["tags"].members[name] == tag && (tag.Text? || tag.Number?))
  {
  }

  /** What a verified key proves takes the place of what was claimed. */
  function Proved(crypto: Crypto, root: Json, claimed: Metadata): Metadata {
    match GetStringMember(root, "publicKey")
    case None => claimed
    case Some(text) =>
      match crypto.base64(text)
      case None => claimed
      case Some(key) => claimed.(nIndex := Some(crypto.nIndex(key)), negHash := Some(crypto.negHash(key)))
  }

  function MetadataOf(floats: Floats, crypto: Crypto, root: Json): Metadata {
    var claimed := BuildMetadata(floats, root);
    if LooksNegantropic(root) then Proved(crypto, root, claimed) else claimed
  }

  /** What a connection remembers of its handshake frame. */
  function Remembered(floats: Floats, crypto: Crypto, frame: Data): Option<Metadata> {
    match Read(floats, TextOf(frame))
    case Fail(_) => None
    case Done(root, _) => Some(MetadataOf(floats, crypto, root))
  }

  // ---------- what an accepted handshake is ----------

  predicate IsHandshake(protocolVersion: string, root: Json) {
    root.Object? && "type" in root.members && root.members["type"] == Text("handshake") &&
    (protocolVersion != "" && "version" in root.members && root.members["version"].Text? ==>
       root.members["version"].text == "" || root.members["version"].text == protocolVersion)
  }

  predicate HasSignedFields(root: Json) {
    root.Object? && {"publicKey", "signature", "negHash", "nIndex"} <= root.members.Keys
  }

  /** `key` signed everything in the root but the signature itself. */
  predicate SignatureCovers(floats: Floats, crypto: Crypto, members: map<string, Json>, key: Data, signature: Data) {
    crypto.verify(key, signature, SerializeJson(floats, Object(members - {"signature"}), false, true))
  }

  ghost predicate IsProperlySigned(floats: Floats, crypto: Crypto, root: Json)
    requires HasSignedFields(root)
  {
    exists key, signature ::
      Holds(root.members, "publicKey", crypto, key) && Holds(root.members, "signature", crypto, signature) &&
      root.members["negHash"] == Text(crypto.negHash(key)) &&
      SignatureCovers(floats, crypto, root.members, key, signature)
  }

  /** The member `name` is the base64 text of `data`. */
  predicate Holds(members: map<string, Json>, name: string, crypto: Crypto, data: Data) {
    name in members && members[name].Text? && crypto.base64(members[name].text) == Some(data)
  }

  lemma VerifiedIsProperlySigned(floats: Floats, crypto: Crypto, root: Json)
    requires HasSignedFields(root)
    ensures VerifyNegantropic(floats, crypto, root).None? <==> IsProperlySigned(floats, crypto, root)
  {
    hide SerializeJson, CanonicalText;
    CanonicalIsUnsigned(floats, root);
    if IsProperlySigned(floats, crypto, root) {
      var key, signature :|
        Holds(root.members, "publicKey", crypto, key) && Holds(root.members, "signature", crypto, signature) &&
        root.members["negHash"] == Text(crypto.negHash(key)) &&
        SignatureCovers(floats, crypto, root.members, key, signature);
    }
    if VerifyNegantropic(floats, crypto, root).None? {
      var key := crypto.base64(root.members["publicKey"].text).value;
      var signature := crypto.base64(root.members["signature"].text).value;
      assert Holds(root.members, "publicKey", crypto, key) && Holds(root.members, "signature", crypto, signature);
      assert SignatureCovers(floats, crypto, root.members, key, signature);
    }
  }

  /** A frame is accepted exactly when its text derives a root that says it is a handshake of an admissible version
      and that, if it carries the four signed fields, is properly signed. */
  lemma AcceptedExactly(floats: Floats, crypto: Crypto, protocolVersion: string, frame: Data)
    ensures Judge(floats, crypto, protocolVersion, frame).None? <==>
      exists d: Document ::
        IsDocument(floats, d) && SpellDocument(d) == TextOf(frame) &&
        AdmissibleRoot(floats, crypto, protocolVersion, Meaning(floats, d.tree))
  {
    if Judge(floats, crypto, protocolVersion, frame).None? {
      var d := DocumentSound(floats, TextOf(frame));
      JudgedRoot(floats, crypto, protocolVersion, Meaning(floats, d.tree));
    }
    forall d: Document | IsDocument(floats, d) && SpellDocument(d) == TextOf(frame) &&
                         AdmissibleRoot(floats, crypto, protocolVersion, Meaning(floats, d.tree))
      ensures Judge(floats, crypto, protocolVersion, frame).None?
    {
      DocumentComplete(floats, d);
      JudgedRoot(floats, crypto, protocolVersion, Meaning(floats, d.tree));
    }
  }

  ghost predicate AdmissibleRoot(floats: Floats, crypto: Crypto, protocolVersion: string, root: Json) {
    IsHandshake(protocolVersion, root) && (HasSignedFields(root) ==> IsProperlySigned(floats, crypto, root))
  }

  lemma JudgedRoot(floats: Floats, crypto: Crypto, protocolVersion: string, root: Json)
    ensures JudgeRoot(floats, crypto, protocolVersion, root).None?
       <==> AdmissibleRoot(floats, crypto, protocolVersion, root)
  {
    assert LooksNegantropic(root) <==> HasSignedFields(root);
    if HasSignedFields(root) {
      VerifiedIsProperlySigned(floats, crypto, root);
    }
  }

  /** One key signed the root, and the hash and the index remembered are that key's. */
  ghost predicate ProvedByKey(floats: Floats, crypto: Crypto, root: Json, known: Metadata)
    requires HasSignedFields(root)
  {
    exists key, signature ::
      Holds(root.members, "publicKey", crypto, key) && Holds(root.members, "signature", crypto, signature) &&
      SignatureCovers(floats, crypto, root.members, key, signature) &&
      known.negHash == Some(crypto.negHash(key)) && known.nIndex == Some(crypto.nIndex(key))
  }

  /** What is remembered of an accepted frame with the four signed fields is proved by the key that signed it: the index
      is the key's, whatever index the frame claims. Of any other accepted frame it is what the frame claims. */
  lemma RememberedIsProved(floats: Floats, crypto: Crypto, protocolVersion: string, frame: Data)
    requires Judge(floats, crypto, protocolVersion, frame).None?
    ensures exists d: Document ::
      IsDocument(floats, d) && SpellDocument(d) == TextOf(frame) &&
      var root, known := Meaning(floats, d.tree), Remembered(floats, crypto, frame);
      known.Some? && known.value.version == GetStringMember(root, "version") &&
      known.value.tags == BuildMetadata(floats, root).tags &&
      if HasSignedFields(root) then ProvedByKey(floats, crypto, root, known.value)
      else known.value == BuildMetadata(floats, root)
  {
    hide SerializeJson, CanonicalText, Spell, Derivation;
    var d := DocumentSound(floats, TextOf(frame));
    var root, known := Meaning(floats, d.tree), Remembered(floats, crypto, frame);
    JudgedRoot(floats, crypto, protocolVersion, root);
    assert LooksNegantropic(root) <==> HasSignedFields(root);
    if HasSignedFields(root) {
      VerifiedIsProperlySigned(floats, crypto, root);
      var key, signature :|
        Holds(root.members, "publicKey", crypto, key) && Holds(root.members, "signature", crypto, signature) &&
        root.members["negHash"] == Text(crypto.negHash(key)) &&
        SignatureCovers(floats, crypto, root.members, key, signature);
      assert ProvedByKey(floats, crypto, root, known.value);
    }
  }

  /** Why a frame is refused: its text is not derivable, or else the first of these that applies to the value. */
  lemma RefusedExactly(floats: Floats, crypto: Crypto, protocolVersion: string, frame: Data)
    ensures var verdict := Judge(floats, crypto, protocolVersion, frame);
      if Read(floats, TextOf(frame)).Fail? then
        verdict == Some("Failed to parse handshake: " + Read(floats, TextOf(frame)).error)
      else
        var root := Read(floats, TextOf(frame)).value;
        if !SaysHandshake(root) then verdict == Some("Invalid handshake payload: missing type")
        else if !IsHandshake(protocolVersion, root) then verdict == Some("Protocol version mismatch")
        else if !HasSignedFields(root) || IsProperlySigned(floats, crypto, root) then verdict == None
        else
          verdict.Some? && exists reason ::
            verdict.value == "Invalid handshake signature: " + reason && IsFault(floats, crypto, root, reason)
  {
    hide Read;
    if Read(floats, TextOf(frame)).Done? {
      var root := Read(floats, TextOf(frame)).value;
      assert LooksNegantropic(root) <==> HasSignedFields(root);
      if HasSignedFields(root) {
        hide VerifyNegantropic, IsProperlySigned, IsFault;
        VerifiedIsProperlySigned(floats, crypto, root);
        FaultFound(floats, crypto, root);
      }
    }
  }

  lemma FaultFound(floats: Floats, crypto: Crypto, root: Json)
    requires HasSignedFields(root)
    ensures var fault := VerifyNegantropic(floats, crypto, root);
      fault.Some? ==> IsFault(floats, crypto, root, fault.value)
  {
    hide SerializeJson, CanonicalText;
    CanonicalIsUnsigned(floats, root);
  }

  predicate SaysHandshake(root: Json) {
    root.Object? && "type" in root.members && root.members["type"] == Text("handshake")
  }

  /** What is wrong with the signed fields. */
  predicate IsFault(floats: Floats, crypto: Crypto, root: Json, reason: string)
    requires HasSignedFields(root)
  {
    var key, signature, hash := root.members["publicKey"], root.members["signature"], root.members["negHash"];
    if !key.Text? || !signature.Text? || !hash.Text? then reason == "Missing negantropic handshake fields"
    else if crypto.base64(key.text).None? || crypto.base64(signature.text).None? then
      reason == "Invalid base64 in handshake"
    else if hash.text != crypto.negHash(crypto.base64(key.text).value) then reason == "Negantropic hash mismatch"
    else
      reason == "Invalid handshake signature" &&
      !SignatureCovers(floats, crypto, root.members, crypto.base64(key.text).value, crypto.base64(signature.text).value)
  }

  /** The verdict depends on the value alone: not on layout, escapes or the order of members. */
  lemma VerdictIgnoresLayout(floats: Floats, crypto: Crypto, protocolVersion: string,
                             f: Data, g: Data, d: Document, e: Document)
    requires IsDocument(floats, d) && SpellDocument(d) == TextOf(f)
    requires IsDocument(floats, e) && SpellDocument(e) == TextOf(g)
    requires Reordered(floats, d.tree, e.tree)
    ensures Judge(floats, crypto, protocolVersion, f) == Judge(floats, crypto, protocolVersion, g)
  {
    CanonicalTextIgnoresLayout(floats, d, e);
  }

  /** A printable handshake may be rewritten by the serializer without changing the verdict. */
  lemma VerdictSurvivesRewrite(floats: Floats, crypto: Crypto, protocolVersion: string, f: Data, g: Data)
    requires Read(floats, TextOf(f)).Done? && Printable(Read(floats, TextOf(f)).value)
    requires TextOf(g) == SerializeJson(floats, Read(floats, TextOf(f)).value, false, true)
    ensures Judge(floats, crypto, protocolVersion, f) == Judge(floats, crypto, protocolVersion, g)
  {
    ReadUndoesWrite(floats, Read(floats, TextOf(f)).value, true);
  }
}
