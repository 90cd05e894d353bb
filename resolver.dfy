/**
 * `MacResolver.resolve` and `MacResolver.handle_http_errors`: validate the
 * address, send one authenticated GET request to the macaddress.io API and
 * turn what comes back into a vendor name or one of the script's errors.
 *
 * The HTTP exchange itself is a parameter, `send`, from the request to what
 * the transport produced (an exception of one of the three kinds `resolve`
 * catches, or a response). The API key, assigned once in the constructor and
 * only read afterwards, is passed as a plain argument.
 */
module MacResolver {

  import opened Wrappers
  import MacFormat
  import Decimal

  // ---------------------------------------------------------------------
  // Configuration and fixed texts
  // ---------------------------------------------------------------------

  /** `MACADDRESS_HOSTNAME`. */
  const Hostname: string := "macaddress.io"

  /** `MACADDRESS_API_URL`. */
  const ApiUrl: string := "https://api." + Hostname + "/v1"

  /** The message of `WrongMacFormat`. */
  const WrongFormatMessage: string :=
    "Wrong format of MAC address! Provide correct MAC address in "
    + "the following format: XX:XX:XX:XX:XX:XX where X represents "
    + "the hexadecimal digit"

  /** Start of the `NetworkError` message for `requests.ConnectionError` (the typo is the source's). */
  const ConnectionErrorPrefix: string := "Connection Error during processing reqest to "

  /** Start of the `NetworkError` message for `requests.Timeout`. */
  const TimeoutPrefix: string := "Timeout during processing request to "

  /** Start of the `NetworkError` message for any other exception. */
  const UnknownErrorPrefix: string := "Unknown error during processing request to "

  // ---------------------------------------------------------------------
  // The exchange with the lookup service
  // ---------------------------------------------------------------------

  /** What `requests.get` is called with: the URL, the headers and the query parameters. */
  datatype Request = Request(url: string, headers: map<string, string>, params: map<string, string>)

  /** The parts of a `requests` response that `resolve` reads; `ok` is taken as given. */
  datatype Response = Response(ok: bool, statusCode: int, text: string)

  /** How the call to `requests.get` ended, in the order the `except` clauses try them. */
  datatype Transport =
    | ConnectionError
    | Timeout
    | OtherException
    | Responded(response: Response)

  /** How `resolve` ends: a value it returns or an exception that leaves it. */
  datatype Outcome =
    | Vendor(text: string)                    // `return response.text`
    | VendorJson(mac: string, text: string)   // `return json.dumps({mac: response.text})`
    | WrongMacFormat(msg: string)
    | NetworkError(msg: string)
    | HttpError(msg: string)
    | Crash                                   // the AttributeError raised for status 402

  /** What `handle_http_errors` does: return a reason, or raise AttributeError. */
  datatype Classified = Reason(text: string) | RaisesAttributeError

  // ---------------------------------------------------------------------
  // handle_http_errors
  // ---------------------------------------------------------------------

  /**
   * The reasons `handle_http_errors` returns for the codes it knows, as the
   * source computes them. For 500 the second f-string is a statement of its
   * own, so the reason stops after "contact ".
   */
  const KnownReasons: map<int, string> := map[
    400 := "Invalid parameters.",
    401 := "Access restricted. Enter the correct API key.",
    422 := "Invalid MAC address was received.",
    429 := "Too many requests. Try your call again later.",
    500 := "Internal server error. Try again or contact "
  ]

  /** The reason for every code outside the table. */
  const UnknownReason: string := "Unknown error."

  /**
   * The status-code classification. For 402 the branch evaluates
   * `cls.api_key` in a statement of its own, and the class has no such
   * attribute (only instances get one), so the call raises.
   */
  function HandleHttpErrors(statusCode: int): (r: Classified)
    ensures r.RaisesAttributeError? <==> statusCode == 402
    ensures statusCode in KnownReasons ==> r == Reason(KnownReasons[statusCode])
    ensures statusCode != 402 && statusCode !in KnownReasons ==> r == Reason(UnknownReason)
  {
    if statusCode == 400 then
      Reason("Invalid parameters.")
    else if statusCode == 401 then
      Reason("Access restricted. Enter the correct API key.")
    else if statusCode == 402 then
      RaisesAttributeError
    else if statusCode == 422 then
      Reason("Invalid MAC address was received.")
    else if statusCode == 429 then
      Reason("Too many requests. Try your call again later.")
    else if statusCode == 500 then
      Reason("Internal server error. Try again or contact ")
    else
      Reason("Unknown error.")
  }

  /** Every code that returns gets one of six reasons, and the five known codes get distinct ones. */
  lemma ReasonsAreDistinct(a: int, b: int)
    requires a != 402 && b != 402
    requires a != b && (a in KnownReasons || b in KnownReasons)
    ensures HandleHttpErrors(a).text != HandleHttpErrors(b).text
  {
  }

  /**
   * The reason for 500 is a proper prefix of the sentence the source
   * evidently meant, and it does not name the host.
   */
  lemma ServerErrorReasonIsTruncated()
    ensures var reason := HandleHttpErrors(500).text;
      reason < "Internal server error. Try again or contact " + Hostname
      && reason[|reason| - 1] == ' '
  {
  }

  // ---------------------------------------------------------------------
  // resolve
  // ---------------------------------------------------------------------

  /**
   * The request `resolve` sends: the fixed API URL, the API key as the
   * `X-Authentication-Token` header, and the caller's own `mac` (not its
   * lower-cased copy) as the `search` parameter, with `output=vendor`.
   */
  function MakeRequest(apiKey: string, mac: string): (req: Request)
    ensures req.url == ApiUrl
    ensures req.headers.Keys == {"X-Authentication-Token"} && req.headers["X-Authentication-Token"] == apiKey
    ensures req.params.Keys == {"search", "output"}
    ensures req.params["search"] == mac && req.params["output"] == "vendor"
  {
    Request(ApiUrl, map["X-Authentication-Token" := apiKey], map["search" := mac, "output" := "vendor"])
  }

  /**
   * The `NetworkError` message: the kind of failure, then the URL, then the
   * address, each at a fixed place.
   */
  function NetworkMessage(prefix: string, mac: string): (m: string)
    ensures |m| == |prefix| + |ApiUrl| + 9 + |mac| + 2
    ensures prefix <= m && m[|prefix|..|prefix| + |ApiUrl|] == ApiUrl
    ensures m[|m| - 2 - |mac|..|m| - 2] == mac && m[|m| - 2..] == ". "
  {
    prefix + ApiUrl + " for mac " + mac + ". "
  }

  /** The three kinds of transport failure give three different messages. */
  lemma NetworkMessagesDistinct(mac: string)
    ensures NetworkMessage(ConnectionErrorPrefix, mac) != NetworkMessage(TimeoutPrefix, mac)
    ensures NetworkMessage(ConnectionErrorPrefix, mac) != NetworkMessage(UnknownErrorPrefix, mac)
    ensures NetworkMessage(TimeoutPrefix, mac) != NetworkMessage(UnknownErrorPrefix, mac)
  {
    assert |ConnectionErrorPrefix| == 45 && |TimeoutPrefix| == 37 && |UnknownErrorPrefix| == 43;
  }

  /** The start of the `HTTPError` message, which names the URL. */
  const HttpHead: string := "Error detected in the response from " + ApiUrl + " for MAC address "

  /** What stands between the address and the status code. */
  const StatusLabel: string := ". " + "Status code: "

  /**
   * The `HTTPError` message up to the status code: the address sits between
   * the fixed head and the status label, so it can be cut back out.
   */
  function HttpMessagePrefix(mac: string): (p: string)
    ensures HttpHead <= p && |p| == |HttpHead| + |mac| + |StatusLabel|
    ensures p[|HttpHead|..|p| - |StatusLabel|] == mac && p[|p| - |StatusLabel|..] == StatusLabel
  {
    HttpHead + mac + StatusLabel
  }

  /**
   * The `HTTPError` message: URL, address, status code and reason. The status
   * code can be read back from just after the prefix, and the reason ends it.
   */
  function HttpMessage(mac: string, statusCode: int, reason: string): (m: string)
    ensures var p := HttpMessagePrefix(mac);
      p <= m && Decimal.ReadInt(m[|p|..]) == Some(statusCode)
    ensures |reason| <= |m| && m[|m| - |reason|..] == reason
  {
    var tail := ", reason: " + reason;
    assert tail[0] == ',';
    Decimal.ReadIntAfterPrefix(HttpMessagePrefix(mac), statusCode, tail);
    HttpMessagePrefix(mac) + Decimal.IntToDecimal(statusCode) + tail
  }

  /**
   * `MacResolver(apiKey).resolve(mac, returnJson)`, with the HTTP exchange
   * given by `send`. The format check comes first; the transport is asked only
   * about the request built from the inputs; exceptions of the transport
   * become `NetworkError`; an ok response gives the vendor, any other
   * response an `HTTPError`, except that a 402 crashes in the classification.
   */
  function Resolve(apiKey: string, mac: string, returnJson: bool, send: Request -> Transport): (r: Outcome)
    ensures r.WrongMacFormat? <==> !MacFormat.IsMacAddress(mac)
    ensures r.WrongMacFormat? ==> r.msg == WrongFormatMessage
    ensures var t := send(MakeRequest(apiKey, mac));
      MacFormat.IsMacAddress(mac) ==>
        && (t == ConnectionError ==> r == NetworkError(NetworkMessage(ConnectionErrorPrefix, mac)))
        && (t == Timeout ==> r == NetworkError(NetworkMessage(TimeoutPrefix, mac)))
        && (t == OtherException ==> r == NetworkError(NetworkMessage(UnknownErrorPrefix, mac)))
        && (t.Responded? && t.response.ok ==>
              r == if returnJson then VendorJson(mac, t.response.text) else Vendor(t.response.text))
        && (t.Responded? && !t.response.ok && t.response.statusCode == 402 ==> r == Crash)
        && (t.Responded? && !t.response.ok && t.response.statusCode != 402 ==>
              r == HttpError(HttpMessage(mac, t.response.statusCode, HandleHttpErrors(t.response.statusCode).text)))
  {
    if !MacFormat.IsValidFormat(mac) then
      WrongMacFormat(WrongFormatMessage)
    else
      match send(MakeRequest(apiKey, mac))
      case ConnectionError => NetworkError(NetworkMessage(ConnectionErrorPrefix, mac))
      case Timeout => NetworkError(NetworkMessage(TimeoutPrefix, mac))
      case OtherException => NetworkError(NetworkMessage(UnknownErrorPrefix, mac))
      case Responded(response) =>
        if response.ok then
          if returnJson then VendorJson(mac, response.text) else Vendor(response.text)
        else
          match HandleHttpErrors(response.statusCode)
          case RaisesAttributeError => Crash
          case Reason(reason) => HttpError(HttpMessage(mac, response.statusCode, reason))
  }

  // ---------------------------------------------------------------------
  // Properties of resolve
  // ---------------------------------------------------------------------

  /** A malformed address fails before the transport is used: no transport changes the outcome. */
  lemma FailFast(apiKey: string, mac: string, returnJson: bool, send: Request -> Transport, other: Request -> Transport)
    requires !MacFormat.IsValidFormat(mac)
    ensures Resolve(apiKey, mac, returnJson, send) == WrongMacFormat(WrongFormatMessage)
    ensures Resolve(apiKey, mac, returnJson, send) == Resolve(apiKey, mac, returnJson, other)
  {
  }

  /** Only the transport's answer to the one request built from the inputs matters. */
  lemma OnlyTheBuiltRequestMatters(apiKey: string, mac: string, returnJson: bool, send: Request -> Transport, other: Request -> Transport)
    requires send(MakeRequest(apiKey, mac)) == other(MakeRequest(apiKey, mac))
    ensures Resolve(apiKey, mac, returnJson, send) == Resolve(apiKey, mac, returnJson, other)
  {
  }

  /** The kind of the outcome is decided by the format check and the transport alone. */
  lemma OutcomeKinds(apiKey: string, mac: string, returnJson: bool, send: Request -> Transport)
    ensures var r := Resolve(apiKey, mac, returnJson, send);
      var t := send(MakeRequest(apiKey, mac));
      var valid := MacFormat.IsValidFormat(mac);
      && (r.NetworkError? <==> valid && !t.Responded?)
      && ((r.Vendor? || r.VendorJson?) <==> valid && t.Responded? && t.response.ok)
      && (r.HttpError? <==> valid && t.Responded? && !t.response.ok && t.response.statusCode != 402)
      && (r.Crash? <==> valid && t.Responded? && !t.response.ok && t.response.statusCode == 402)
  {
  }

  /** The status code whose decimal follows the message's fixed start, if any. */
  function StatusFromHttpMessage(mac: string, msg: string): Option<int>
  {
    var prefix := HttpMessagePrefix(mac);
    if prefix <= msg then Decimal.ReadInt(msg[|prefix|..]) else None
  }

  /** Reading the status code back from a message built by `HttpMessage`. */
  lemma HttpMessageStatusReadBack(mac: string, statusCode: int, reason: string)
    ensures StatusFromHttpMessage(mac, HttpMessage(mac, statusCode, reason)) == Some(statusCode)
  {
    var tail := ", reason: " + reason;
    assert tail[0] == ',';
    assert HttpMessage(mac, statusCode, reason) == HttpMessagePrefix(mac) + Decimal.IntToDecimal(statusCode) + tail;
    Decimal.ReadIntAfterPrefix(HttpMessagePrefix(mac), statusCode, tail);
  }

  /** The status code of a failed response can be read back from the `HTTPError` message. */
  lemma HttpErrorCarriesStatus(apiKey: string, mac: string, returnJson: bool, send: Request -> Transport)
    requires Resolve(apiKey, mac, returnJson, send).HttpError?
    ensures var t := send(MakeRequest(apiKey, mac));
      t.Responded? && StatusFromHttpMessage(mac, Resolve(apiKey, mac, returnJson, send).msg) == Some(t.response.statusCode)
  {
    var code := send(MakeRequest(apiKey, mac)).response.statusCode;
    HttpMessageStatusReadBack(mac, code, HandleHttpErrors(code).text);
  }

  /**
   * The format check ignores the case of letters, but the request carries
   * the address exactly as the caller wrote it.
   */
  lemma CaseOnlyReachesTheRequest(apiKey: string, mac: string, other: string, returnJson: bool, send: Request -> Transport)
    requires |mac| == |other|
    requires forall i :: 0 <= i < |mac| ==> MacFormat.LowerChar(mac[i]) == MacFormat.LowerChar(other[i])
    ensures Resolve(apiKey, mac, returnJson, send).WrongMacFormat? == Resolve(apiKey, other, returnJson, send).WrongMacFormat?
    ensures mac != other ==> MakeRequest(apiKey, mac) != MakeRequest(apiKey, other)
  {
    MacFormat.CaseInsensitive(mac, other);
    if mac != other {
      assert MakeRequest(apiKey, mac).params["search"] != MakeRequest(apiKey, other).params["search"];
    }
  }

  /** A successful lookup returns the vendor as it is, or wrapped with the address. */
  lemma ScenarioVendorFound(apiKey: string, mac: string, send: Request -> Transport)
    requires MacFormat.IsValidFormat(mac)
    requires send(MakeRequest(apiKey, mac)) == Responded(Response(true, 200, "Cisco Systems"))
    ensures Resolve(apiKey, mac, false, send) == Vendor("Cisco Systems")
    ensures Resolve(apiKey, mac, true, send) == VendorJson(mac, "Cisco Systems")
  {
  }

  /** A 401 response gives an `HTTPError` that names the code and the reason. */
  lemma ScenarioWrongKey(apiKey: string, mac: string, send: Request -> Transport)
    requires MacFormat.IsValidFormat(mac)
    requires send(MakeRequest(apiKey, mac)) == Responded(Response(false, 401, ""))
    ensures Resolve(apiKey, mac, false, send)
      == HttpError(HttpMessagePrefix(mac) + "401" + ", reason: " + "Access restricted. Enter the correct API key.")
  {
    var reason := HandleHttpErrors(401).text;
    assert Resolve(apiKey, mac, false, send) == HttpError(HttpMessage(mac, 401, reason));
    assert reason == "Access restricted. Enter the correct API key.";
    Decimal.Examples();
    HttpMessageWithDigits(mac, 401, "401", reason);
  }

  /** `HttpMessage` with the decimal of the status code already known. */
  lemma HttpMessageWithDigits(mac: string, statusCode: int, digits: string, reason: string)
    requires Decimal.IntToDecimal(statusCode) == digits
    ensures HttpMessage(mac, statusCode, reason) == HttpMessagePrefix(mac) + digits + ", reason: " + reason
  {
  }

  /** A 402 response never becomes an `HTTPError`: the classification raises. */
  lemma ScenarioNoCredit(apiKey: string, mac: string, send: Request -> Transport)
    requires MacFormat.IsValidFormat(mac)
    requires send(MakeRequest(apiKey, mac)) == Responded(Response(false, 402, ""))
    ensures Resolve(apiKey, mac, false, send) == Crash
  {
  }

  /** A refused connection gives a `NetworkError` naming the endpoint and the address. */
  lemma ScenarioConnectionRefused(apiKey: string, mac: string, send: Request -> Transport)
    requires MacFormat.IsValidFormat(mac)
    requires send(MakeRequest(apiKey, mac)) == ConnectionError
    ensures Resolve(apiKey, mac, false, send)
      == NetworkError("Connection Error during processing reqest to " + ApiUrl + " for mac " + mac + ". ")
  {
  }

  /** "not-a-mac" is refused before anything is sent. */
  lemma ScenarioNotAMac(apiKey: string, send: Request -> Transport)
    ensures Resolve(apiKey, "not-a-mac", false, send) == WrongMacFormat(WrongFormatMessage)
  {
    MacFormat.RejectsMalformed("not-a-mac");
  }
}
