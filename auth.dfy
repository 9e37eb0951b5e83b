/**
 * HMAC service-to-service authentication (app/middlewares/auth_middleware.go).
 * A caller proves it holds the secret registered for its service id by
 * sending the lower-case hex HMAC-SHA1 of `nonce-serviceID`. The keyed hash
 * itself (RFC 2104 over SHA-1, FIPS 180-4) is foreign and given as a function.
 */
module Auth {
  import opened Wrappers
  import opened Strings
  import opened Hex
  import opened Errors
  import opened Requests
  import opened Controllers
  import opened EnvConfig

  /** HMAC-SHA1 of a message under a key, both taken as their bytes. */
  type HmacSha1 = (string, string) -> seq<byte>

  // Header names (app/middlewares/middleware.go).
  const ServiceIdHeader := "Service-Id"
  const ServiceNonceHeader := "Service-Nonce"
  const ServiceSignatureHeader := "Service-Signature"

  /** `getReqHeader`: the first value sent for the header, or `""` when it was not sent. */
  function GetReqHeader(header: map<string, seq<string>>, key: string): (value: string)
    ensures key in header && |header[key]| >= 1 ==> value == header[key][0]
    ensures !(key in header && |header[key]| >= 1) ==> value == ""
  {
    if key !in header || |header[key]| < 1 then "" else header[key][0]
  }

  /** The signed message: nonce first, a hyphen, then the service id. */
  function SignedMessage(serviceID: string, nonce: string): (message: string)
    ensures message == nonce + "-" + serviceID
  {
    JoinPair(nonce, serviceID, "-");
    Join([nonce, serviceID], "-")
  }

  /** The HMAC key for a service id: its registered secret, or `""` for an unregistered id. */
  function KeyFor(serviceConfig: map<string, string>, serviceID: string): string
  {
    if serviceID in serviceConfig then serviceConfig[serviceID] else ""
  }

  /** `CalculateHmacSignature`: two lower-case hex digits per digest byte, which decode back to the digest. */
  function CalculateHmacSignature(hmac: HmacSha1, key: string, data: string): (signature: string)
    ensures |signature| == 2 * |hmac(key, data)|
    ensures forall i :: 0 <= i < |signature| ==> IsLowerHex(signature[i])
    ensures Decode(signature) == Some(hmac(key, data))
  {
    DecodeEncode(hmac(key, data));
    EncodeToString(hmac(key, data))
  }

  /**
   * `validateHmacDigest`: accepts exactly when all three values are present
   * and the supplied signature is, character for character, the hex digest
   * of the signed message under the id's key.
   */
  function ValidateHmacDigest(serviceID: string, nonce: string, serviceSignature: string,
                              serviceConfig: map<string, string>, hmac: HmacSha1): (ok: bool)
    ensures ok ==> serviceID != "" && nonce != "" && serviceSignature != ""
    ensures ok <==> serviceID != "" && nonce != "" && serviceSignature != "" &&
                    Decode(serviceSignature) == Some(hmac(KeyFor(serviceConfig, serviceID), nonce + "-" + serviceID))
  {
    if serviceID == "" || nonce == "" || serviceSignature == "" then false
    else
      var message := SignedMessage(serviceID, nonce);
      var digest := CalculateHmacSignature(hmac, KeyFor(serviceConfig, serviceID), message);
      EncodingIff(serviceSignature, hmac(KeyFor(serviceConfig, serviceID), message));
      digest == serviceSignature
  }

  /** Every correctly signed request with all three values present is accepted (when the digest is not empty). */
  lemma CorrectSignatureAccepted(serviceID: string, nonce: string, serviceConfig: map<string, string>, hmac: HmacSha1)
    requires serviceID != "" && nonce != ""
    requires |hmac(KeyFor(serviceConfig, serviceID), nonce + "-" + serviceID)| > 0
    ensures ValidateHmacDigest(serviceID, nonce,
                               CalculateHmacSignature(hmac, KeyFor(serviceConfig, serviceID), nonce + "-" + serviceID),
                               serviceConfig, hmac)
  {
  }

  /** The comparison is case-sensitive: a signature with an upper-case letter is always rejected. */
  lemma UpperCaseSignatureRejected(serviceID: string, nonce: string, serviceSignature: string,
                                   serviceConfig: map<string, string>, hmac: HmacSha1, i: nat)
    requires i < |serviceSignature| && 'A' <= serviceSignature[i] <= 'F'
    ensures !ValidateHmacDigest(serviceID, nonce, serviceSignature, serviceConfig, hmac)
  {
    EncodingIff(serviceSignature, hmac(KeyFor(serviceConfig, serviceID), nonce + "-" + serviceID));
  }

  /** With SHA-1's 20-byte digests, only 40-character signatures are ever accepted. */
  lemma Sha1SignatureLength(serviceID: string, nonce: string, serviceSignature: string,
                            serviceConfig: map<string, string>, hmac: HmacSha1)
    requires |hmac(KeyFor(serviceConfig, serviceID), nonce + "-" + serviceID)| == 20
    requires ValidateHmacDigest(serviceID, nonce, serviceSignature, serviceConfig, hmac)
    ensures |serviceSignature| == 40
  {
    EncodingIff(serviceSignature, hmac(KeyFor(serviceConfig, serviceID), nonce + "-" + serviceID));
  }

  /** The rejection error; the offending id goes into the cause, for logs only. */
  function UnauthorizedError(serviceID: string): (e: ErrorValue)
    ensures e.Code() == "unauthorized" && e.httpStatusCode == 401
    ensures e.description == "Failed to authenticate"
    ensures e.cause == "serviceID:" + serviceID + " serviceID is not whitelisted"
  {
    ErrorValue(UnauthorizedRequest, "Failed to authenticate",
               "serviceID:" + serviceID + " serviceID is not whitelisted", StatusUnauthorized)
  }

  /**
   * A service id that is not registered is checked under the empty key, so
   * it is accepted with the HMAC computed under `""`.
   */
  lemma UnregisteredIdAcceptedUnderEmptyKey(serviceID: string, nonce: string,
                                            serviceConfig: map<string, string>, hmac: HmacSha1)
    requires serviceID != "" && nonce != "" && serviceID !in serviceConfig
    requires |hmac("", nonce + "-" + serviceID)| > 0
    ensures ValidateHmacDigest(serviceID, nonce, EncodeToString(hmac("", nonce + "-" + serviceID)), serviceConfig, hmac)
  {
    DecodeEncode(hmac("", nonce + "-" + serviceID));
  }

  /**
   * Whether the filter lets `req` through, given the credential string
   * `allowedOrigins`: all three headers are present and the signature header
   * is the hex HMAC of `nonce-id` under the id's parsed secret.
   */
  function Authentic(req: RequestView, allowedOrigins: string, hmac: HmacSha1): (ok: bool)
    ensures var id := GetReqHeader(req.header, ServiceIdHeader);
            var nonce := GetReqHeader(req.header, ServiceNonceHeader);
            var signature := GetReqHeader(req.header, ServiceSignatureHeader);
            ok <==> id != "" && nonce != "" && signature != "" &&
                    signature == EncodeToString(hmac(KeyFor(CredentialMap(allowedOrigins), id), nonce + "-" + id))
  {
    EncodingIff(GetReqHeader(req.header, ServiceSignatureHeader),
                hmac(KeyFor(CredentialMap(allowedOrigins), GetReqHeader(req.header, ServiceIdHeader)),
                     GetReqHeader(req.header, ServiceNonceHeader) + "-" + GetReqHeader(req.header, ServiceIdHeader)));
    ValidateHmacDigest(GetReqHeader(req.header, ServiceIdHeader),
                       GetReqHeader(req.header, ServiceNonceHeader),
                       GetReqHeader(req.header, ServiceSignatureHeader),
                       CredentialMap(allowedOrigins), hmac)
  }

  /** `AuthenticateWithHmacDigestMiddleware`, with the credential string and the keyed hash as parameters. */
  function AuthenticateWithHmacDigest(allowedOrigins: string, hmac: HmacSha1): (middleware: Middleware)
    ensures forall next: Controller, req: RequestView {:trigger middleware(next)(req)} ::
              !Authentic(req, allowedOrigins, hmac) ==>
                middleware(next)(req) == Returned(None, Some(UnauthorizedError(GetReqHeader(req.header, ServiceIdHeader))))
    ensures forall next: Controller, req: RequestView {:trigger middleware(next)(req)} ::
              Authentic(req, allowedOrigins, hmac) ==> middleware(next)(req) == next(req)
  {
    (next: Controller) =>
      (req: RequestView) =>
        if !Authentic(req, allowedOrigins, hmac) then
          Returned(None, Some(UnauthorizedError(GetReqHeader(req.header, ServiceIdHeader))))
        else
          next(req)
  }

  /** On rejection the filter answers for itself, with no data and the unauthorized error, whatever `next` would do. */
  lemma RejectionShortCircuits(allowedOrigins: string, hmac: HmacSha1, next: Controller, req: RequestView)
    requires !Authentic(req, allowedOrigins, hmac)
    ensures AuthenticateWithHmacDigest(allowedOrigins, hmac)(next)(req) ==
            Returned(None, Some(UnauthorizedError(GetReqHeader(req.header, ServiceIdHeader))))
  {
  }

  /** On acceptance the filter is transparent: the result is exactly the next handler's. */
  lemma AcceptanceIsTransparent(allowedOrigins: string, hmac: HmacSha1, next: Controller, req: RequestView)
    requires Authentic(req, allowedOrigins, hmac)
    ensures AuthenticateWithHmacDigest(allowedOrigins, hmac)(next)(req) == next(req)
  {
  }
}
