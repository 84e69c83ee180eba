/** SamlHelper: the decision logic of the eAuth SAML 2.0 response validator, the
    signature gate, the status mapper, the extensions text of an AuthnRequest, the
    SOAP envelope of an ArtifactResolve and the parsing of its result.
    XML parsing, decryption, the IdP metadata download and the cryptographic
    signature check are not part of this model: each is an oracle in an
    Environment, and each call to one of them is recorded as a Step, so that the
    steps a run performs can be stated. */
module SamlHelper {
  import opened Text

  // ---------------------------------------------------------------------------
  // Status mapping (section 3.2.2.2 of OASIS SAML 2.0 Core: a second-level status
  // code is nested in the top-level one)

  datatype EAuthResponseStatus =
    | Success
    | AuthenticationFailed
    | CanceledByUser
    | NotDetectedQES
    | InvalidResponseXML
    | InvalidMetadata
    | InvalidSignature
    | MissingEGN

  const SuccessUrn: string := "urn:oasis:names:tc:SAML:2.0:status:Success"
  const AuthnFailedUrn: string := "urn:oasis:names:tc:SAML:2.0:status:AuthnFailed"
  const CanceledByUserPhrase: string := "отказан от потребител"
  const NotDetectedQesPhrase: string := "not_detected_qes"

  /** GetResponseStatusFromCode: a null status code is None. The message is compared
      trimmed and lower-cased. */
  function GetResponseStatusFromCode(statusCode: Option<string>, statusMessage: string): EAuthResponseStatus {
    if statusCode == Some(AuthnFailedUrn) then
      if ToLower(Trim(statusMessage)) == CanceledByUserPhrase then CanceledByUser
      else if ToLower(Trim(statusMessage)) == NotDetectedQesPhrase then NotDetectedQES
      else AuthenticationFailed
    else if statusCode == Some(SuccessUrn) then Success
    else AuthenticationFailed
  }

  /** Only the Success URN yields Success; an unrecognised or missing code is an
      authentication failure, never a success. */
  lemma StatusSuccessOnlyFromSuccessUrn(statusCode: Option<string>, statusMessage: string)
    ensures GetResponseStatusFromCode(statusCode, statusMessage) == Success <==> statusCode == Some(SuccessUrn)
    ensures statusCode != Some(SuccessUrn) && statusCode != Some(AuthnFailedUrn) ==>
      GetResponseStatusFromCode(statusCode, statusMessage) == AuthenticationFailed
  {
  }

  /** Under AuthnFailed the outcome is chosen by the trimmed, lower-cased message and
      is one of the three failure kinds. */
  lemma StatusOfAuthnFailed(statusMessage: string)
    ensures var r := GetResponseStatusFromCode(Some(AuthnFailedUrn), statusMessage);
            && (r == CanceledByUser <==> ToLower(Trim(statusMessage)) == CanceledByUserPhrase)
            && (r == NotDetectedQES <==> ToLower(Trim(statusMessage)) == NotDetectedQesPhrase)
            && (r == AuthenticationFailed <==>
                  ToLower(Trim(statusMessage)) != CanceledByUserPhrase
                  && ToLower(Trim(statusMessage)) != NotDetectedQesPhrase)
  {
    assert CanceledByUserPhrase != NotDetectedQesPhrase by {
      assert CanceledByUserPhrase[0] != NotDetectedQesPhrase[0];
    }
  }

  /** The phrases are recognised whatever whitespace surrounds them and whatever the
      case of their letters. */
  lemma {:induction false} StatusPhraseInAnyCaseAndPadding(w1: string, c: string, w2: string)
    requires IsBlank(w1) && IsBlank(w2)
    requires ToLower(c) == CanceledByUserPhrase || ToLower(c) == NotDetectedQesPhrase
    ensures GetResponseStatusFromCode(Some(AuthnFailedUrn), w1 + c + w2)
         == if ToLower(c) == CanceledByUserPhrase then CanceledByUser else NotDetectedQES
  {
    var p := ToLower(c);
    assert |c| == |p| && |p| > 0;
    assert !IsWhiteSpace(c[0]) && !IsWhiteSpace(c[|c| - 1]) by {
      LowerKeepsWhiteSpace(c[0]);
      LowerKeepsWhiteSpace(c[|c| - 1]);
      assert p[0] == LowerChar(c[0]) && p[|c| - 1] == LowerChar(c[|c| - 1]);
      if p == CanceledByUserPhrase {
        assert p[0] == 'о' && p[|c| - 1] == 'л';
      } else {
        assert p[0] == 'n' && p[|c| - 1] == 's';
      }
    }
    TrimOfPadded(w1, c, w2);
    StatusOfAuthnFailed(w1 + c + w2);
  }

  // ---------------------------------------------------------------------------
  // The signature gate

  /** The signing certificate: its thumbprint and its validity window. */
  datatype Certificate = Certificate(thumbprint: string, notBefore: int, notAfter: int)

  /** The Signature element located in a document: the first certificate of the first
      X509 data of its KeyInfo (None when KeyInfo holds no X509 data, or X509 data
      without a certificate), and the verdict of SignedXml.CheckSignature(), which is
      not part of this model. */
  datatype SignatureInfo = SignatureInfo(certificate: Option<Certificate>, checkSignature: bool)

  /** A call either returns a value or throws. */
  datatype Outcome<T> = Returned(value: T) | Threw

  /** VerifySigningInternal. `signature` is None when the text is not XML, when the
      document has no element with the signature tag, or when SignedXml.LoadXml
      rejects that element: each of these throws. With certificate verification, a
      signature without a certificate throws too (`First()` on no X509 data, or
      `Certificates[0]` on an empty list). `now` is the clock. */
  function VerifySigningInternal(signature: Option<SignatureInfo>, verifyCertificate: bool,
                                 certificateThumbprint: string,
                                 validateCertificateExpirationDate: bool, now: int): Outcome<bool>
  {
    match signature
    case None => Threw
    case Some(sig) =>
      if !verifyCertificate then Returned(sig.checkSignature)
      else match sig.certificate
        case None => Threw
        case Some(cert) =>
          if Trim(ToLower(cert.thumbprint)) != Trim(ToLower(certificateThumbprint)) then
            Returned(false)
          else if validateCertificateExpirationDate && (now < cert.notBefore || now > cert.notAfter) then
            Returned(false)
          else Returned(sig.checkSignature)
  }

  /** The thumbprint pin, compared lower-cased and trimmed. */
  predicate ThumbprintMatches(cert: Certificate, pinned: string) {
    Trim(ToLower(cert.thumbprint)) == Trim(ToLower(pinned))
  }

  /** A document is accepted exactly when its signature checks and, when certificates
      are verified, it carries a certificate whose thumbprint matches the pin and, if
      requested, whose validity window holds the clock. The call throws exactly when
      the signature element is missing or unreadable, or when a certificate is needed
      and there is none. */
  lemma VerifySigningAccepts(signature: Option<SignatureInfo>, verifyCertificate: bool, pinned: string,
                             validateExpiry: bool, now: int)
    ensures VerifySigningInternal(signature, verifyCertificate, pinned, validateExpiry, now) == Returned(true)
        <==> && signature.Some?
             && signature.value.checkSignature
             && (verifyCertificate ==>
                   && signature.value.certificate.Some?
                   && ThumbprintMatches(signature.value.certificate.value, pinned)
                   && (validateExpiry ==>
                         signature.value.certificate.value.notBefore <= now <= signature.value.certificate.value.notAfter))
    ensures VerifySigningInternal(signature, verifyCertificate, pinned, validateExpiry, now) == Threw
        <==> signature.None? || (verifyCertificate && signature.value.certificate.None?)
  {
  }

  /** A thumbprint mismatch rejects the document whatever its signature; the validity
      window is consulted only when requested; past the gate the verdict is exactly
      CheckSignature(). */
  lemma VerifySigningGate(cert: Certificate, checkSignature: bool, pinned: string, validateExpiry: bool, now: int)
    ensures var sig := SignatureInfo(Some(cert), checkSignature);
            && (!ThumbprintMatches(cert, pinned) ==>
                  VerifySigningInternal(Some(sig), true, pinned, validateExpiry, now) == Returned(false))
            && (ThumbprintMatches(cert, pinned) && !validateExpiry ==>
                  VerifySigningInternal(Some(sig), true, pinned, validateExpiry, now) == Returned(checkSignature))
            && (ThumbprintMatches(cert, pinned) && validateExpiry && (now < cert.notBefore || now > cert.notAfter) ==>
                  VerifySigningInternal(Some(sig), true, pinned, validateExpiry, now) == Returned(false))
  {
  }

  function VerifySignatureAndCertificate(signature: Option<SignatureInfo>, certificateThumbprint: string,
                                         validateCertificateExpirationDate: bool, now: int): Outcome<bool>
  {
    VerifySigningInternal(signature, true, certificateThumbprint, validateCertificateExpirationDate, now)
  }

  /** VerifySignature passes no thumbprint (null in the source; never read). */
  function VerifySignature(signature: Option<SignatureInfo>, now: int): Outcome<bool> {
    VerifySigningInternal(signature, false, [], false, now)
  }

  /** Without certificate verification, the verdict is CheckSignature() itself, for
      every pin and clock, and a signature without a certificate is accepted on it;
      with it, only a present certificate with a matching pin is accepted. */
  lemma VerifyWrappers(sig: SignatureInfo, pinned: string, validateExpiry: bool, now: int)
    ensures VerifySignature(Some(sig), now) == Returned(sig.checkSignature)
    ensures VerifySignatureAndCertificate(Some(sig), pinned, validateExpiry, now) == Returned(true) ==>
      sig.certificate.Some? && ThumbprintMatches(sig.certificate.value, pinned) && sig.checkSignature
    ensures sig.certificate.None? ==> VerifySignatureAndCertificate(Some(sig), pinned, validateExpiry, now) == Threw
    ensures VerifySignature(None, now) == Threw
  {
  }

  // ---------------------------------------------------------------------------
  // ParseEAuthResponse

  /** A personName and a personIdentifier attribute value, when present. */
  datatype AttributeStatement = AttributeStatement(personName: Option<string>, personIdentifier: Option<string>)

  /** An assertion: how many ds:Signature elements it holds, and its attributes. */
  datatype Assertion = Assertion(signatures: nat, attributes: Option<AttributeStatement>)

  /** The nested samlp:StatusCode element, with its Value attribute if any. */
  datatype NestedStatusCode = NestedStatusCode(value: Option<string>)

  /** samlp:Status/samlp:StatusCode: its Value attribute and an optional nested code. */
  datatype StatusCodeNode = StatusCodeNode(value: Option<string>, nested: Option<NestedStatusCode>)

  /** What the validator reads from a parsed response document. The encrypted
      assertion is an uninterpreted cipher text. */
  datatype ResponseDocument = ResponseDocument(
    encryptedAssertion: Option<string>,
    assertion: Option<Assertion>,
    statusCode: Option<StatusCodeNode>,
    statusMessage: Option<string>)

  /** The outcome of the IdP metadata download. */
  datatype MetadataResponse =
    | HttpFailure                      // IsSuccessStatusCode is false
    | MalformedMetadata                // the body is not XML, or holds no usable certificate
    | IdpCertificate(cert: string)

  datatype Environment = Environment(
    eAuthSkipped: bool,                              // the skip setting
    initialStatus: EAuthResponseStatus,              // the enum's default value
    loadXml: string -> Option<ResponseDocument>,     // None: XmlDocument.LoadXml throws
    decrypt: string -> Option<Assertion>,            // None: the SP certificate or decryption fails
    metadata: MetadataResponse,
    checkSignature: (Assertion, string) -> bool,     // SignedXml.CheckSignature() with the IdP certificate
    htmlDecode: string -> string)                    // HttpUtility.HtmlDecode

  /** The oracles a run consults, in order. */
  datatype Step = LoadXml | Decrypt | FetchMetadata | CheckSignature

  /** Why a run throws. */
  datatype Failure = ArgumentNull | DecryptionFailed | MetadataUnreadable

  /** EAuthLoginDataDO; a field still null is None. */
  datatype LoginData = LoginData(
    ResponseStatus: EAuthResponseStatus,
    ResponseStatusMessage: Option<string>,
    Egn: Option<string>,
    Name: Option<string>)

  datatype Result = Done(data: LoginData) | Thrown(failure: Failure)

  datatype Run = Run(result: Result, steps: seq<Step>)

  const DemoEgn: string := "9011118326"
  const DemoName: string := "Демо"

  function Fresh(env: Environment): LoginData {
    LoginData(env.initialStatus, None, None, None)
  }

  /** The status read from the response: the nested code's value overrides the outer
      one; a missing message reads as the empty string. Without a StatusCode element
      the data is unchanged. */
  function WithStatus(env: Environment, doc: ResponseDocument, d: LoginData): LoginData {
    match doc.statusCode
    case None => d
    case Some(node) =>
      var code := if node.nested.Some? then node.nested.value.value else node.value;
      var message := if doc.statusMessage.Some? then env.htmlDecode(doc.statusMessage.value) else [];
      d.(ResponseStatusMessage := Some(message), ResponseStatus := GetResponseStatusFromCode(code, message))
  }

  /** The attributes of a successful response: the name as given, and the national
      identifier as the second '-'-separated part of personIdentifier. */
  function WithAttributes(a: Assertion, d: LoginData): LoginData {
    match a.attributes
    case None => d
    case Some(st) =>
      var named := if st.personName.Some? then d.(Name := st.personName) else d;
      match st.personIdentifier
      case None => named
      case Some(id) =>
        var parts := Split(id, '-');
        if |parts| < 2 || parts[1] == [] then named.(ResponseStatus := MissingEGN)
        else named.(Egn := Some(parts[1]))
  }

  /** The steps after the assertion is located: metadata, signature, status, attributes. */
  function Validate(env: Environment, doc: ResponseDocument, a: Assertion, isEncrypted: bool,
                    steps: seq<Step>): Run
  {
    var steps := steps + [FetchMetadata];
    match env.metadata
    case HttpFailure => Run(Done(Fresh(env).(ResponseStatus := InvalidMetadata)), steps)
    case MalformedMetadata => Run(Thrown(MetadataUnreadable), steps)
    case IdpCertificate(cert) =>
      if a.signatures == 0 then Run(Done(Fresh(env).(ResponseStatus := InvalidSignature)), steps)
      else if isEncrypted && !env.checkSignature(a, cert) then
        Run(Done(Fresh(env).(ResponseStatus := InvalidSignature)), steps + [CheckSignature])
      else
        var steps := if isEncrypted then steps + [CheckSignature] else steps;
        var d := WithStatus(env, doc, Fresh(env));
        if d.ResponseStatus != Success then Run(Done(d), steps)
        else Run(Done(WithAttributes(a, d)), steps)
  }

  /** ParseEAuthResponse as a function of the response text and the environment. */
  function ParseEAuthResponseSpec(env: Environment, samlResponse: string): Run {
    if env.eAuthSkipped then
      Run(Done(LoginData(Success, None, Some(DemoEgn), Some(DemoName))), [])
    else if samlResponse == [] then Run(Thrown(ArgumentNull), [])
    else
      match env.loadXml(samlResponse)
      case None => Run(Done(Fresh(env).(ResponseStatus := InvalidResponseXML)), [LoadXml])
      case Some(doc) =>
        if doc.encryptedAssertion.Some? then
          match env.decrypt(doc.encryptedAssertion.value)
          case None => Run(Thrown(DecryptionFailed), [LoadXml, Decrypt])
          case Some(a) => Validate(env, doc, a, true, [LoadXml, Decrypt])
        else if doc.assertion.Some? then Validate(env, doc, doc.assertion.value, false, [LoadXml])
        else Run(Done(Fresh(env).(ResponseStatus := InvalidResponseXML)), [LoadXml])
  }

  /** ParseEAuthResponse: fills the login data field by field and returns early at
      every failed check, consulting the oracles in the order the source does. */
  method ParseEAuthResponse(env: Environment, samlResponse: string) returns (result: Result, steps: seq<Step>)
    ensures Run(result, steps) == ParseEAuthResponseSpec(env, samlResponse)
  {
    var data := Fresh(env);
    steps := [];
    if env.eAuthSkipped {
      data := data.(ResponseStatus := Success);
      data := data.(Egn := Some(DemoEgn));
      data := data.(Name := Some(DemoName));
      return Done(data), steps;
    }
    if samlResponse == [] {
      return Thrown(ArgumentNull), steps;
    }
    steps := steps + [LoadXml];
    var loaded := env.loadXml(samlResponse);
    if loaded.None? {
      data := data.(ResponseStatus := InvalidResponseXML);
      return Done(data), steps;
    }
    var doc := loaded.value;
    var assertion: Assertion;
    var isEncrypted := true;
    if doc.encryptedAssertion.Some? {
      steps := steps + [Decrypt];
      var decrypted := env.decrypt(doc.encryptedAssertion.value);
      if decrypted.None? {
        return Thrown(DecryptionFailed), steps;
      }
      assertion := decrypted.value;
    } else {
      if doc.assertion.Some? {
        assertion := doc.assertion.value;
      } else {
        data := data.(ResponseStatus := InvalidResponseXML);
        return Done(data), steps;
      }
      isEncrypted := false;
    }
    steps := steps + [FetchMetadata];
    if env.metadata.HttpFailure? {
      data := data.(ResponseStatus := InvalidMetadata);
      return Done(data), steps;
    }
    if env.metadata.MalformedMetadata? {
      return Thrown(MetadataUnreadable), steps;
    }
    var idpCert := env.metadata.cert;
    if assertion.signatures == 0 {
      data := data.(ResponseStatus := InvalidSignature);
      return Done(data), steps;
    }
    if isEncrypted {
      steps := steps + [CheckSignature];
      var valid := env.checkSignature(assertion, idpCert);
      if !valid {
        data := data.(ResponseStatus := InvalidSignature);
        return Done(data), steps;
      }
    }
    if doc.statusCode.Some? {
      var node := doc.statusCode.value;
      var statusCodeValue := node.value;
      if node.nested.Some? {
        statusCodeValue := node.nested.value.value;
      }
      var message := if doc.statusMessage.Some? then env.htmlDecode(doc.statusMessage.value) else [];
      data := data.(ResponseStatusMessage := Some(message));
      data := data.(ResponseStatus := GetResponseStatusFromCode(statusCodeValue, message));
    }
    if data.ResponseStatus != Success {
      return Done(data), steps;
    }
    if assertion.attributes.Some? {
      var st := assertion.attributes.value;
      if st.personName.Some? {
        data := data.(Name := st.personName);
      }
      if st.personIdentifier.Some? {
        var parts := Split(st.personIdentifier.value, '-');
        if |parts| < 2 || parts[1] == [] {
          data := data.(ResponseStatus := MissingEGN);
          return Done(data), steps;
        }
        data := data.(Egn := Some(parts[1]));
      }
    }
    return Done(data), steps;
  }

  // ---------------------------------------------------------------------------
  // Properties of ParseEAuthResponse

  /** With the skip setting on, the demo identity is returned before any step. */
  lemma SkipReturnsDemoIdentity(env: Environment, samlResponse: string)
    requires env.eAuthSkipped
    ensures var run := ParseEAuthResponseSpec(env, samlResponse);
            && run.steps == []
            && run.result == Done(LoginData(Success, None, Some("9011118326"), Some("Демо")))
  {
  }

  /** An unparsable document, or one with neither an EncryptedAssertion nor an
      Assertion, is InvalidResponseXML, and no metadata is fetched. */
  lemma InvalidXmlFetchesNothing(env: Environment, samlResponse: string)
    requires !env.eAuthSkipped && samlResponse != []
    requires env.loadXml(samlResponse).None?
          || (env.loadXml(samlResponse).value.encryptedAssertion.None?
              && env.loadXml(samlResponse).value.assertion.None?)
    ensures var run := ParseEAuthResponseSpec(env, samlResponse);
            && run.result.Done? && run.result.data.ResponseStatus == InvalidResponseXML
            && run.steps == [LoadXml]
            && FetchMetadata !in run.steps
  {
  }

  /** The outcome of the steps after the assertion is located, assuming they run. */
  predicate MetadataFetched(env: Environment, samlResponse: string) {
    && !env.eAuthSkipped && samlResponse != [] && env.loadXml(samlResponse).Some?
    && var doc := env.loadXml(samlResponse).value;
       (doc.encryptedAssertion.Some? ==> env.decrypt(doc.encryptedAssertion.value).Some?)
       && (doc.encryptedAssertion.Some? || doc.assertion.Some?)
  }

  /** The assertion the validator checks. */
  function LocatedAssertion(env: Environment, samlResponse: string): Assertion
    requires MetadataFetched(env, samlResponse)
  {
    var doc := env.loadXml(samlResponse).value;
    if doc.encryptedAssertion.Some? then env.decrypt(doc.encryptedAssertion.value).value else doc.assertion.value
  }

  /** A failed metadata download is InvalidMetadata, before any signature check. */
  lemma MetadataFailureIsInvalidMetadata(env: Environment, samlResponse: string)
    requires MetadataFetched(env, samlResponse) && env.metadata.HttpFailure?
    ensures var run := ParseEAuthResponseSpec(env, samlResponse);
            && run.result == Done(Fresh(env).(ResponseStatus := InvalidMetadata))
            && CheckSignature !in run.steps
            && run.steps[|run.steps| - 1] == FetchMetadata
  {
  }

  /** An assertion without a ds:Signature is InvalidSignature, on both paths. */
  lemma UnsignedAssertionIsInvalidSignature(env: Environment, samlResponse: string)
    requires MetadataFetched(env, samlResponse) && env.metadata.IdpCertificate?
    requires LocatedAssertion(env, samlResponse).signatures == 0
    ensures ParseEAuthResponseSpec(env, samlResponse).result == Done(Fresh(env).(ResponseStatus := InvalidSignature))
  {
  }

  /** CheckSignature() is consulted exactly on the encrypted path; there a failing check
      is InvalidSignature, and on the plain path its verdict does not matter. */
  lemma SignatureCheckedOnlyWhenEncrypted(env: Environment, samlResponse: string, other: (Assertion, string) -> bool)
    requires MetadataFetched(env, samlResponse) && env.metadata.IdpCertificate?
    requires LocatedAssertion(env, samlResponse).signatures > 0
    ensures var run := ParseEAuthResponseSpec(env, samlResponse);
            var doc := env.loadXml(samlResponse).value;
            && (CheckSignature in run.steps <==> doc.encryptedAssertion.Some?)
            && (doc.encryptedAssertion.Some?
                && !env.checkSignature(LocatedAssertion(env, samlResponse), env.metadata.cert) ==>
                  run.result == Done(Fresh(env).(ResponseStatus := InvalidSignature)))
            && (doc.encryptedAssertion.None? ==>
                  run == ParseEAuthResponseSpec(env.(checkSignature := other), samlResponse))
  {
  }

  /** The data reached after the status is read, on a response whose signature passed. */
  predicate SignaturePassed(env: Environment, samlResponse: string) {
    && MetadataFetched(env, samlResponse) && env.metadata.IdpCertificate?
    && var a := LocatedAssertion(env, samlResponse);
       && a.signatures > 0
       && (env.loadXml(samlResponse).value.encryptedAssertion.Some? ==> env.checkSignature(a, env.metadata.cert))
  }

  /** The nested status code overrides the outer one, and any status other than
      Success returns before the attributes are read. */
  lemma StatusDecidesBeforeAttributes(env: Environment, samlResponse: string)
    requires SignaturePassed(env, samlResponse)
    ensures var doc := env.loadXml(samlResponse).value;
            var d := WithStatus(env, doc, Fresh(env));
            var run := ParseEAuthResponseSpec(env, samlResponse);
            && (doc.statusCode.Some? && doc.statusCode.value.nested.Some? ==>
                  d.ResponseStatus == GetResponseStatusFromCode(doc.statusCode.value.nested.value.value,
                                                                d.ResponseStatusMessage.value))
            && (d.ResponseStatus != Success ==> run.result == Done(d) && d.Egn.None? && d.Name.None?)
            && (d.ResponseStatus == Success ==> run.result == Done(WithAttributes(LocatedAssertion(env, samlResponse), d)))
  {
  }

  /** The national identifier is the text between the first and the second '-' of
      personIdentifier; when that text is empty or there is no '-', the outcome is
      MissingEGN; when the attribute is absent the status stays Success without one. */
  lemma {:induction false} EgnIsSecondPart(a: Assertion, d: LoginData, name: Option<string>, before: string, after: string)
    requires d.ResponseStatus == Success && d.Egn.None?
    requires '-' !in before
    ensures var st := AttributeStatement(name, Some(before + ['-'] + after));
            var r := WithAttributes(a.(attributes := Some(st)), d);
            var second := Split(after, '-')[0];
            && (second != [] ==> r.ResponseStatus == Success && r.Egn == Some(second))
            && (second == [] ==> r.ResponseStatus == MissingEGN && r.Egn.None?)
    ensures '-' !in before ==>
      WithAttributes(a.(attributes := Some(AttributeStatement(name, Some(before)))), d).ResponseStatus == MissingEGN
    ensures WithAttributes(a.(attributes := Some(AttributeStatement(name, None))), d).ResponseStatus == Success
    ensures WithAttributes(a.(attributes := Some(AttributeStatement(name, None))), d).Egn.None?
  {
    SplitAtFirst(before, after, '-');
  }

  /** Outside the skip setting, a Success outcome needs a parsed response whose assertion
      carries a signature, a successful metadata download, a passing CheckSignature()
      when the assertion was encrypted, and either the Success status code or no status
      at all with Success as the enum's default. */
  lemma SuccessRequiresChecks(env: Environment, samlResponse: string)
    requires !env.eAuthSkipped
    requires ParseEAuthResponseSpec(env, samlResponse).result.Done?
    requires ParseEAuthResponseSpec(env, samlResponse).result.data.ResponseStatus == Success
    ensures SignaturePassed(env, samlResponse)
    ensures var doc := env.loadXml(samlResponse).value;
            match doc.statusCode
            case None => env.initialStatus == Success
            case Some(node) => (if node.nested.Some? then node.nested.value.value else node.value) == Some(SuccessUrn)
  {
    var doc := env.loadXml(samlResponse).value;
    var d := WithStatus(env, doc, Fresh(env));
    assert d.ResponseStatus == Success by {
      if d.ResponseStatus != Success {
        StatusDecidesBeforeAttributes(env, samlResponse);
      }
    }
    if doc.statusCode.Some? {
      var node := doc.statusCode.value;
      var code := if node.nested.Some? then node.nested.value.value else node.value;
      StatusSuccessOnlyFromSuccessUrn(code, d.ResponseStatusMessage.value);
    }
  }

  // ---------------------------------------------------------------------------
  // The AuthnRequest extensions (GetExtensions)

  const ExtensionsHead: string := "<egovbga:RequestedService><egovbga:Service>"
  const ExtensionsMiddle: string := "</egovbga:Service><egovbga:Provider>"
  const ExtensionsTail: string :=
    "</egovbga:Provider>" + "<egovbga:LevelOfAssurance>SUBSTANTIAL</egovbga:LevelOfAssurance>" + "</egovbga:RequestedService>"

  /** The text String.Format builds from the service and provider ids before it is
      loaded as XML. */
  function GetExtensions(service: string, provider: string): string {
    ExtensionsHead + service + ExtensionsMiddle + provider + ExtensionsTail
  }

  /** The text before the first '<', and the rest from it. */
  function TakeText(s: string): (r: (string, string))
    ensures r.0 + r.1 == s && '<' !in r.0 && (r.1 == [] || r.1[0] == '<')
  {
    if s == [] || s[0] == '<' then ([], s)
    else
      var r := TakeText(s[1..]);
      assert s == [s[0]] + s[1..];
      assert ([s[0]] + r.0) + r.1 == [s[0]] + (r.0 + r.1);
      ([s[0]] + r.0, r.1)
  }

  lemma {:induction false} TakeTextOfText(t: string, rest: string)
    requires '<' !in t && (rest == [] || rest[0] == '<')
    ensures TakeText(t + rest) == (t, rest)
  {
    if t != [] {
      assert (t + rest)[0] == t[0] && (t + rest)[1..] == t[1..] + rest;
      TakeTextOfText(t[1..], rest);
      assert [t[0]] + t[1..] == t;
    } else {
      assert t + rest == rest;
    }
  }

  /** Reads two '<'-free texts back from h + a + m + b + t. */
  function ReadFramed(x: string, h: string, m: string, t: string): Option<(string, string)> {
    if |x| < |h| || x[..|h|] != h then None
    else
      var first := TakeText(x[|h|..]);
      if |first.1| < |m| || first.1[..|m|] != m then None
      else
        var second := TakeText(first.1[|m|..]);
        if second.1 != t then None
        else Some((first.0, second.0))
  }

  lemma FramedRoundTrip(h: string, a: string, m: string, b: string, t: string)
    requires '<' !in a && '<' !in b && m != [] && m[0] == '<' && t != [] && t[0] == '<'
    ensures ReadFramed(h + a + m + b + t, h, m, t) == Some((a, b))
  {
    FrameCuts(h, a, m, b, t);
    TakeTextOfText(a, m + b + t);
    TakeTextOfText(b, t);
  }

  /** Where ReadFramed cuts h + a + m + b + t. */
  lemma FrameCuts(h: string, a: string, m: string, b: string, t: string)
    ensures |h + a + m + b + t| >= |h|
    ensures (h + a + m + b + t)[..|h|] == h && (h + a + m + b + t)[|h|..] == a + (m + b + t)
    ensures (m + b + t)[..|m|] == m && (m + b + t)[|m|..] == b + t
  {
    assert h + a + m + b + t == h + (a + (m + b + t));
    assert m + b + t == m + (b + t);
  }

  lemma FramedReadBack(x: string, h: string, m: string, t: string)
    requires ReadFramed(x, h, m, t).Some?
    ensures var r := ReadFramed(x, h, m, t).value;
            '<' !in r.0 && '<' !in r.1 && h + r.0 + m + r.1 + t == x
  {
    var first := TakeText(x[|h|..]);
    var second := TakeText(first.1[|m|..]);
    ReassembleFrame(x, h, first.0, first.1, m, second.0, t);
  }

  /** The pieces a framed text was cut into reassemble to it. */
  lemma ReassembleFrame(x: string, h: string, a: string, rest: string, m: string, b: string, t: string)
    requires |x| >= |h| && x[..|h|] == h && x[|h|..] == a + rest
    requires |rest| >= |m| && rest[..|m|] == m && rest[|m|..] == b + t
    ensures h + a + m + b + t == x
  {
    assert rest == m + (b + t) by {
      assert rest == rest[..|m|] + rest[|m|..];
    }
    assert x == h + (a + rest) by {
      assert x == x[..|h|] + x[|h|..];
    }
    assert h + a + m + b + t == h + (a + (m + (b + t)));
  }

  /** Reads the service and provider ids back from the extensions text. */
  function ReadExtensions(x: string): Option<(string, string)> {
    ReadFramed(x, ExtensionsHead, ExtensionsMiddle, ExtensionsTail)
  }

  /** Ids without '<' are read back unchanged, and every text that reads back is the
      extensions text of what it reads as. */
  lemma ExtensionsRoundTrip(service: string, provider: string)
    requires '<' !in service && '<' !in provider
    ensures ReadExtensions(GetExtensions(service, provider)) == Some((service, provider))
  {
    assert ExtensionsMiddle[0] == '<' && ExtensionsTail[0] == '<';
    FramedRoundTrip(ExtensionsHead, service, ExtensionsMiddle, provider, ExtensionsTail);
  }

  lemma ExtensionsReadBack(x: string)
    requires ReadExtensions(x).Some?
    ensures var (service, provider) := ReadExtensions(x).value;
            '<' !in service && '<' !in provider && GetExtensions(service, provider) == x
  {
    FramedReadBack(x, ExtensionsHead, ExtensionsMiddle, ExtensionsTail);
  }

  // ---------------------------------------------------------------------------
  // Artifact resolution (section 3.5 of OASIS SAML 2.0 Core)

  /** StringBuilder.AppendLine ends each line with Environment.NewLine. */
  const NewLine: string := "\r\n"
  const EnvelopeOpen: string := "<SOAP-ENV:Envelope xmlns:SOAP-ENV=\"http://schemas.xmlsoap.org/soap/envelope/\">"
  const BodyOpen: string := "<SOAP-ENV:Body>"
  const BodyClose: string := "</SOAP-ENV:Body>"
  const EnvelopeClose: string := "</SOAP-ENV:Envelope>"

  function EnvelopePrefix(): string {
    EnvelopeOpen + NewLine + BodyOpen + NewLine
  }

  function EnvelopeSuffix(): string {
    NewLine + BodyClose + NewLine + EnvelopeClose + NewLine
  }

  /** WrapInSoapMessage: five lines appended to a buffer. */
  method WrapInSoapMessage(body: string) returns (r: string)
    ensures r == EnvelopePrefix() + body + EnvelopeSuffix()
    ensures UnwrapSoapMessage(r) == Some(body)
  {
    var builder := [];
    builder := builder + EnvelopeOpen + NewLine;
    builder := builder + BodyOpen + NewLine;
    assert builder == EnvelopePrefix();
    builder := builder + body + NewLine;
    builder := builder + BodyClose + NewLine;
    builder := builder + EnvelopeClose + NewLine;
    assert builder == EnvelopePrefix() + body + EnvelopeSuffix() by {
      SoapAppendLines(EnvelopePrefix(), body);
    }
    r := builder;
    SoapRoundTrip(body);
  }

  lemma SoapAppendLines(p: string, body: string)
    ensures p + body + NewLine + BodyClose + NewLine + EnvelopeClose + NewLine == p + body + EnvelopeSuffix()
  {
  }

  /** The body of an envelope written by WrapInSoapMessage. */
  function UnwrapSoapMessage(x: string): Option<string> {
    var p := EnvelopePrefix();
    var q := EnvelopeSuffix();
    if |x| >= |p| + |q| && x[..|p|] == p && x[|x| - |q|..] == q then Some(x[|p|..|x| - |q|]) else None
  }

  /** Every body is recovered from its envelope, and a text that unwraps is the
      envelope of its body. */
  lemma SoapRoundTrip(body: string)
    ensures UnwrapSoapMessage(EnvelopePrefix() + body + EnvelopeSuffix()) == Some(body)
  {
    var p := EnvelopePrefix();
    var q := EnvelopeSuffix();
    var x := p + body + q;
    assert x[..|p|] == p;
    assert x[|x| - |q|..] == q;
    assert x[|p|..|x| - |q|] == body;
  }

  lemma SoapUnwrapInverse(x: string)
    requires UnwrapSoapMessage(x).Some?
    ensures EnvelopePrefix() + UnwrapSoapMessage(x).value + EnvelopeSuffix() == x
  {
    var p := EnvelopePrefix();
    var q := EnvelopeSuffix();
    assert x == x[..|p|] + x[|p|..|x| - |q|] + x[|x| - |q|..];
  }

  /** GenerateSaml2ArtifactResolve: the serialised ArtifactResolve element for the
      artifact (SamlSerialization is not part of this model: `serialize`), wrapped. */
  method GenerateSaml2ArtifactResolve(artifact: string, serialize: string -> string) returns (r: string)
    ensures UnwrapSoapMessage(r) == Some(serialize(artifact))
  {
    var artifactResolveString := serialize(artifact);
    r := WrapInSoapMessage(artifactResolveString);
  }

  /** The person data of an artifact response; each name part may be missing. */
  datatype PersonNode = PersonNode(
    egn: Option<string>,
    givenName: Option<string>, middleName: Option<string>, familyName: Option<string>,
    givenNameLat: Option<string>, middleNameLat: Option<string>, familyNameLat: Option<string>)

  /** What the parser reads from the first child of the SOAP body. */
  datatype ArtifactResponse = ArtifactResponse(
    statusCode: Option<string>,
    statusMessage: Option<string>,
    person: Option<PersonNode>)

  /** The outcome of loading the SOAP text. */
  datatype SoapDocument = NotXml | NoBody | Body(response: ArtifactResponse)

  datatype Status = Status(StatusCode: string, StatusMessage: string)

  datatype DcElectronicIdentityInfo = DcElectronicIdentityInfo(
    IsValid: bool, EGN: string,
    GivenName: string, MiddleName: string, FamilyName: string,
    GivenNameLat: string, MiddleNameLat: string, FamilyNameLat: string)

  /** Why ParseSaml2Result throws: the text is not XML, or a node it reads is missing. */
  datatype ParseError = XmlException | NullReference

  datatype Parsed = Parsed(info: Option<DcElectronicIdentityInfo>, status: Status) | ParseFailed(error: ParseError)

  predicate HasAllNames(p: PersonNode) {
    p.egn.Some? && p.givenName.Some? && p.middleName.Some? && p.familyName.Some?
    && p.givenNameLat.Some? && p.middleNameLat.Some? && p.familyNameLat.Some?
  }

  /** ParseSaml2Result: the status always, and the person's data on Success. Reading a
      missing node throws, as the source's unchecked .Value and .InnerText do; a
      missing person element returns no data. */
  function ParseSaml2Result(soap: SoapDocument, htmlDecode: string -> string): Parsed {
    match soap
    case NotXml => ParseFailed(XmlException)
    case NoBody => ParseFailed(NullReference)
    case Body(r) =>
      if r.statusCode.None? || r.statusMessage.None? then ParseFailed(NullReference)
      else
        var status := Status(r.statusCode.value, htmlDecode(r.statusMessage.value));
        if r.statusCode.value != SuccessUrn then Parsed(None, status)
        else match r.person
          case None => Parsed(None, status)
          case Some(p) =>
            if !HasAllNames(p) then ParseFailed(NullReference)
            else Parsed(Some(DcElectronicIdentityInfo(true, p.egn.value,
                          p.givenName.value, p.middleName.value, p.familyName.value,
                          p.givenNameLat.value, p.middleNameLat.value, p.familyNameLat.value)), status)
  }

  /** Identity data is returned exactly for a Success status with a complete person
      element, and then it is valid and carries that person's values. */
  lemma ParseSaml2ResultIdentity(soap: SoapDocument, htmlDecode: string -> string)
    ensures var p := ParseSaml2Result(soap, htmlDecode);
            (p.Parsed? && p.info.Some?) <==>
              (soap.Body? && soap.response.statusCode == Some(SuccessUrn) && soap.response.statusMessage.Some?
               && soap.response.person.Some? && HasAllNames(soap.response.person.value))
    ensures var p := ParseSaml2Result(soap, htmlDecode);
            p.Parsed? && p.info.Some? ==>
              && p.info.value.IsValid
              && Some(p.info.value.EGN) == soap.response.person.value.egn
              && Some(p.info.value.FamilyNameLat) == soap.response.person.value.familyNameLat
              && p.status.StatusCode == SuccessUrn
  {
  }

  /** A missing status code or message is an error, never a result; any other status
      than Success is reported with no identity data. */
  lemma ParseSaml2ResultStatus(r: ArtifactResponse, htmlDecode: string -> string)
    ensures r.statusCode.None? || r.statusMessage.None? ==> ParseSaml2Result(Body(r), htmlDecode) == ParseFailed(NullReference)
    ensures r.statusCode.Some? && r.statusMessage.Some? && r.statusCode.value != SuccessUrn ==>
      ParseSaml2Result(Body(r), htmlDecode) == Parsed(None, Status(r.statusCode.value, htmlDecode(r.statusMessage.value)))
  {
  }

  // ---------------------------------------------------------------------------
  // Placement of the signature (SignDocument)

  /** A child element of the signed document's root. */
  datatype Node = Issuer | Signature | Element(name: string)

  /** The root element of a document being signed, whose children change in place. */
  class SignedDocument {
    var children: seq<Node>

    constructor(children: seq<Node>)
      ensures this.children == children
    {
      this.children := children;
    }

    /** SignDocument inserts the computed Signature immediately after the first Issuer
        element. Without one, indexing the empty node list throws (false is returned)
        and the document is unchanged. */
    method InsertSignature() returns (inserted: bool)
      modifies this
      ensures inserted <==> Issuer in old(children)
      ensures inserted ==>
        var i := FirstIndexOf(old(children), Issuer);
        && children == old(children)[..i + 1] + [Signature] + old(children)[i + 1..]
        && children[i] == Issuer && children[i + 1] == Signature
        && multiset(children) == multiset(old(children)) + multiset{Signature}
      ensures !inserted ==> children == old(children)
    {
      if Issuer !in children {
        return false;
      }
      var i := FirstIndexOf(children, Issuer);
      assert children == children[..i + 1] + children[i + 1..];
      children := children[..i + 1] + [Signature] + children[i + 1..];
      return true;
    }
  }

  /** The index of the first occurrence of x. */
  function FirstIndexOf(s: seq<Node>, x: Node): (i: nat)
    requires x in s
    ensures i < |s| && s[i] == x && x !in s[..i]
  {
    if s[0] == x then 0 else assert s[1..][FirstIndexOf(s[1..], x)] == s[1 + FirstIndexOf(s[1..], x)]; 1 + FirstIndexOf(s[1..], x)
  }
}
