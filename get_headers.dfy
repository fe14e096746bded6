/**
 * The self-contained logic of Scripts/GetHeaders.js: which REST id the
 * current item is addressed by, which REST service base URL the request
 * goes to, and the request URL built from the two.
 */
module GetHeaders {
  import opened Wrappers
  import opened Strings
  import opened JsRegex

  // ---------------------------------------------------------------------
  // Constants of the source
  // ---------------------------------------------------------------------

  /** The literal both the format-1 regex and the format-2 result start with. */
  const Https := "https://"

  /** The base URL used when the `aud` claim has neither recognised format. */
  const DefaultRestUrl := "https://outlook.office.com"

  /** Host name of Outlook for iOS, whose item ids are already REST ids. */
  const IosHostName := "OutlookIOS"

  /** The fixed path between the base URL and the item id. */
  const MessagesPath := "/api/v2.0/me/messages/"

  /** The OData filter that selects PR_TRANSPORT_MESSAGE_HEADERS. */
  const TransportHeadersFilter := "PropertyId eq 'String 0x007D'"

  /** The fixed query after the item id. */
  const Query := "?$select=SingleValueExtendedProperties&$expand=SingleValueExtendedProperties($filter="
    + TransportHeadersFilter + ")"

  /** `Office.MailboxEnums.RestVersion`. */
  datatype RestVersion = V1_0 | V2_0 | Beta

  /** The values the functions read from `Office.context.mailbox`. */
  datatype Mailbox = Mailbox(hostName: string, itemId: string, restUrl: Option<string>)

  // ---------------------------------------------------------------------
  // getItemRestId
  // ---------------------------------------------------------------------

  /**
   * The REST id of the current item. `convertToRestId` stands for the
   * host's `Office.context.mailbox.convertToRestId`.
   */
  function ItemRestId(hostName: string, itemId: string, convertToRestId: (string, RestVersion) -> string): string
  {
    if hostName == IosHostName then itemId else convertToRestId(itemId, V2_0)
  }

  // ---------------------------------------------------------------------
  // getRestUrl
  // ---------------------------------------------------------------------

  /** JavaScript truthiness of `mailbox.restUrl`: present and not the empty string. */
  predicate HasConfiguredUrl(restUrl: Option<string>)
  {
    restUrl.Some? && restUrl.value != ""
  }

  /**
   * `aud.match(/\/([^@]*)@/)`, with `Some(c)` for a match whose group 1
   * is `c`: the text between the first `/` and the first `@` after it.
   */
  function HostCapture(aud: string): Option<string>
  {
    match FirstIndex(aud, '/', 0)
    case None => None
    case Some(i) =>
      match FirstIndex(aud, At, i + 1)
      case None => None
      case Some(j) => Some(aud[i + 1..j])
  }

  /** The base URL derived from the token's `aud` claim (both formats and the default). */
  function ClaimRestUrl(aud: string): string
  {
    if Contains(aud, Https) then aud
    else
      match HostCapture(aud)
      case Some(host) => if host != "" then Https + host else DefaultRestUrl
      case None => DefaultRestUrl
  }

  /** `getRestUrl`: the configured URL if there is one, else the claim-derived one. */
  function RestUrl(restUrl: Option<string>, aud: string): string
  {
    if HasConfiguredUrl(restUrl) then restUrl.value else ClaimRestUrl(aud)
  }

  // ----- the explicit searches agree with the regular expressions -----

  /** The format-1 test: `/https:\/\/([^@]*)/` matches exactly when `https://` occurs anywhere. */
  lemma ContainsHttpsIsRegexMatch(aud: string)
    ensures Contains(aud, Https) <==> Matches(aud, Https, "")
  {
    if Contains(aud, Https) {
      var p :| OccursAt(aud, Https, p);
      assert Https + "" + "" == Https;
      assert MatchAt(aud, p, Https, "", "");
    }
    if Matches(aud, Https, "") {
      var p, c :| MatchAt(aud, p, Https, "", c);
      CaptureIsSlice(aud, p, Https, "", c);
      assert OccursAt(aud, Https, p);
    }
  }

  /** What a match of `/\/([^@]*)@/` at `p` says about the characters of `aud`. */
  lemma SlashMatchFacts(aud: string, p: int, c: string)
    requires MatchAt(aud, p, "/", "@", c)
    ensures p + 1 + |c| < |aud| && aud[p] == '/' && aud[p + 1 + |c|] == At
    ensures forall k :: p < k < p + 1 + |c| ==> aud[k] != At
  {
    CaptureIsSlice(aud, p, "/", "@", c);
    assert aud[p + 1 + |c|] == aud[p + 1 + |c|..p + 2 + |c|][0];
    assert forall k :: p < k < p + 1 + |c| ==> aud[k] == c[k - p - 1];
  }

  /** The format-2 search finds exactly the match, and the group, that JavaScript reports. */
  lemma HostCaptureIsJsMatch(aud: string)
    ensures HostCapture(aud).Some? ==> exists p :: JsMatch(aud, "/", "@", p, HostCapture(aud).value)
    ensures HostCapture(aud).None? <==> !Matches(aud, "/", "@")
  {
    forall p, c | MatchAt(aud, p, "/", "@", c)
      ensures aud[p] == '/' && aud[p + 1 + |c|] == At
      ensures forall k :: p < k < p + 1 + |c| ==> aud[k] != At
    {
      SlashMatchFacts(aud, p, c);
    }
    var first := FirstIndex(aud, '/', 0);
    if first.Some? {
      var i := first.value;
      forall p, c | MatchAt(aud, p, "/", "@", c)
        ensures i <= p && i + 1 <= p + 1 + |c| < |aud| && aud[p + 1 + |c|] == At
      {
        SlashMatchFacts(aud, p, c);
      }
      var next := FirstIndex(aud, At, i + 1);
      if next.Some? {
        var j := next.value;
        var h := aud[i + 1..j];
        assert aud[i..j + 1] == "/" + h + "@";
        assert MatchAt(aud, i, "/", "@", h);
        assert JsMatch(aud, "/", "@", i, h);
      }
    }
  }

  /** `HostCapture` is `match[1]` of the JavaScript match, in both directions. */
  lemma HostCaptureIffJsMatch(aud: string, h: string)
    ensures HostCapture(aud) == Some(h) <==> exists p :: JsMatch(aud, "/", "@", p, h)
  {
    HostCaptureIsJsMatch(aud);
    if p :| JsMatch(aud, "/", "@", p, h) {
      assert Matches(aud, "/", "@");
      var q :| JsMatch(aud, "/", "@", q, HostCapture(aud).value);
      JsMatchUnique(aud, "/", "@", p, h, q, HostCapture(aud).value);
    }
  }

  /** `ClaimRestUrl` follows the three branches of the source, stated in regex terms. */
  lemma ClaimRestUrlFollowsJsMatch(aud: string)
    ensures Matches(aud, Https, "") ==> ClaimRestUrl(aud) == aud
    ensures !Matches(aud, Https, "") ==>
      forall p, h :: JsMatch(aud, "/", "@", p, h) && h != "" ==> ClaimRestUrl(aud) == Https + h
    ensures !Matches(aud, Https, "") && (forall p, h :: JsMatch(aud, "/", "@", p, h) ==> h == "") ==>
      ClaimRestUrl(aud) == DefaultRestUrl
  {
    ContainsHttpsIsRegexMatch(aud);
    forall p, h | JsMatch(aud, "/", "@", p, h)
      ensures HostCapture(aud) == Some(h)
    {
      HostCaptureIffJsMatch(aud, h);
    }
    HostCaptureIsJsMatch(aud);
  }

  // ----- the branches of getRestUrl, stated on indices -----

  /** Format 1: an `aud` with `https://` anywhere in it is the base URL verbatim. */
  lemma ClaimRestUrlVerbatim(aud: string, p: int)
    requires OccursAt(aud, Https, p)
    ensures ClaimRestUrl(aud) == aud
  {
  }

  /**
   * Format 2: with `i` the first `/`, `j` the first `@` after it and a
   * non-empty text between them, the base URL is `https://` and that text.
   */
  lemma ClaimRestUrlHost(aud: string, i: int, j: int)
    requires forall p :: !OccursAt(aud, Https, p)
    requires 0 <= i && i + 1 < j < |aud| && aud[i] == '/' && aud[j] == At
    requires forall k :: 0 <= k < i ==> aud[k] != '/'
    requires forall k :: i < k < j ==> aud[k] != At
    ensures ClaimRestUrl(aud) == Https + aud[i + 1..j]
  {
    assert !Contains(aud, Https);
    assert FirstIndex(aud, '/', 0) == Some(i);
    assert FirstIndex(aud, At, i + 1) == Some(j);
  }

  /** Format 2 by its parts: `lead/host@rest`, with no `/` in `lead` and no `@` in `host`. */
  lemma ClaimRestUrlLeadHostRest(lead: string, host: string, rest: string)
    requires '/' !in lead && At !in host && host != ""
    requires !Contains(lead + "/" + host + "@" + rest, Https)
    ensures ClaimRestUrl(lead + "/" + host + "@" + rest) == Https + host
  {
    var aud := lead + "/" + host + "@" + rest;
    var i, j := |lead|, |lead| + 1 + |host|;
    assert forall k :: 0 <= k < i ==> aud[k] == lead[k];
    assert forall k :: i < k < j ==> aud[k] == host[k - i - 1];
    assert aud[i] == '/' && aud[j] == At;
    assert aud[i + 1..j] == host;
    ClaimRestUrlHost(aud, i, j);
  }

  /** The default, when no `/` is followed later by an `@`. */
  lemma ClaimRestUrlNoHost(aud: string)
    requires forall p :: !OccursAt(aud, Https, p)
    requires forall i, j :: 0 <= i < j < |aud| && aud[i] == '/' ==> aud[j] != At
    ensures ClaimRestUrl(aud) == DefaultRestUrl
  {
  }

  /** The default, when the first `/` is immediately followed by `@` (an empty group). */
  lemma ClaimRestUrlEmptyHost(aud: string, i: int)
    requires forall p :: !OccursAt(aud, Https, p)
    requires 0 <= i && i + 1 < |aud| && aud[i] == '/' && aud[i + 1] == At
    requires forall k :: 0 <= k < i ==> aud[k] != '/'
    ensures ClaimRestUrl(aud) == DefaultRestUrl
  {
    assert FirstIndex(aud, '/', 0) == Some(i);
    assert FirstIndex(aud, At, i + 1) == Some(i + 1);
  }

  /**
   * Without a configured URL the base URL is never empty and always has
   * `https://` in it; outside format 1 it starts with `https://` and the
   * host after it has no `@`.
   */
  lemma ClaimRestUrlShape(aud: string)
    ensures |ClaimRestUrl(aud)| > 0
    ensures Contains(ClaimRestUrl(aud), Https)
    ensures !Contains(aud, Https) ==> Https <= ClaimRestUrl(aud) && At !in ClaimRestUrl(aud)[|Https|..]
  {
    var r := ClaimRestUrl(aud);
    if Contains(aud, Https) {
      var p :| OccursAt(aud, Https, p);
    } else {
      match HostCapture(aud) {
        case Some(host) =>
          if host != "" {
            var i := FirstIndex(aud, '/', 0).value;
            var j := FirstIndex(aud, At, i + 1).value;
            assert host == aud[i + 1..j];
            assert forall k :: 0 <= k < |host| ==> host[k] == aud[i + 1 + k];
            assert r[|Https|..] == host;
          } else {
            assert r[|Https|..] == "outlook.office.com";
          }
        case None =>
          assert r[|Https|..] == "outlook.office.com";
      }
      assert r[..|Https|] == Https;
      assert OccursAt(r, Https, 0);
    }
  }

  /** Whatever the inputs, `getRestUrl` never yields the empty string. */
  lemma RestUrlNonEmpty(restUrl: Option<string>, aud: string)
    ensures |RestUrl(restUrl, aud)| > 0
    ensures !HasConfiguredUrl(restUrl) ==> Contains(RestUrl(restUrl, aud), Https)
  {
    ClaimRestUrlShape(aud);
  }

  // ---------------------------------------------------------------------
  // The request URL built in getHeaders
  // ---------------------------------------------------------------------

  /** The URL of the GET request for one item. */
  function MessageUrl(baseUrl: string, itemId: string): string
  {
    baseUrl + MessagesPath + itemId + Query
  }

  /** Recovers the item id from a request URL for a known base URL. */
  function ParseMessageUrl(baseUrl: string, url: string): Option<string>
  {
    var head := |baseUrl| + |MessagesPath|;
    if |url| >= head + |Query| && url[..head] == baseUrl + MessagesPath && url[|url| - |Query|..] == Query
    then Some(url[head..|url| - |Query|])
    else None
  }

  /** Parsing is the exact inverse of composing, for a fixed base URL. */
  lemma ParseMessageUrlInverse(baseUrl: string, url: string, itemId: string)
    ensures ParseMessageUrl(baseUrl, url) == Some(itemId) <==> url == MessageUrl(baseUrl, itemId)
  {
    var head := |baseUrl| + |MessagesPath|;
    if url == MessageUrl(baseUrl, itemId) {
      assert url[..head] == baseUrl + MessagesPath;
      assert url[|url| - |Query|..] == Query;
      assert url[head..|url| - |Query|] == itemId;
    }
    if ParseMessageUrl(baseUrl, url) == Some(itemId) {
      assert url == url[..head] + url[head..|url| - |Query|] + url[|url| - |Query|..];
    }
  }

  /** For a fixed base URL, different item ids give different request URLs. */
  lemma MessageUrlInjective(baseUrl: string, itemId1: string, itemId2: string)
    ensures MessageUrl(baseUrl, itemId1) == MessageUrl(baseUrl, itemId2) ==> itemId1 == itemId2
  {
    ParseMessageUrlInverse(baseUrl, MessageUrl(baseUrl, itemId1), itemId1);
    ParseMessageUrlInverse(baseUrl, MessageUrl(baseUrl, itemId1), itemId2);
  }

  /** The request URL starts with the base URL and ends with the fixed query holding the property filter. */
  lemma MessageUrlShape(baseUrl: string, itemId: string)
    ensures baseUrl <= MessageUrl(baseUrl, itemId)
    ensures |MessageUrl(baseUrl, itemId)| >= |Query|
    ensures MessageUrl(baseUrl, itemId)[|MessageUrl(baseUrl, itemId)| - |Query|..] == Query
    ensures Contains(MessageUrl(baseUrl, itemId), TransportHeadersFilter)
  {
    var url := MessageUrl(baseUrl, itemId);
    var lead := baseUrl + MessagesPath + itemId + "?$select=SingleValueExtendedProperties&$expand=SingleValueExtendedProperties($filter=";
    assert url == lead + TransportHeadersFilter + ")";
    assert url[|lead|..|lead| + |TransportHeadersFilter|] == TransportHeadersFilter;
    assert OccursAt(url, TransportHeadersFilter, |lead|);
    assert url == (baseUrl + MessagesPath + itemId) + Query;
  }

  /** The query is the exact literal of the source, property tag included. */
  lemma QueryIsSourceLiteral()
    ensures Query == "?$select=SingleValueExtendedProperties&$expand=SingleValueExtendedProperties($filter=PropertyId eq 'String 0x007D')"
  {
  }

  /** The whole request URL `getHeaders` builds from the mailbox and the `aud` claim. */
  function RequestUrl(mailbox: Mailbox, aud: string, convertToRestId: (string, RestVersion) -> string): string
  {
    MessageUrl(RestUrl(mailbox.restUrl, aud), ItemRestId(mailbox.hostName, mailbox.itemId, convertToRestId))
  }

  /** What the request URL promises: base, property filter, and the REST id recoverable. */
  lemma RequestUrlShape(mailbox: Mailbox, aud: string, convertToRestId: (string, RestVersion) -> string)
    ensures RestUrl(mailbox.restUrl, aud) <= RequestUrl(mailbox, aud, convertToRestId)
    ensures !HasConfiguredUrl(mailbox.restUrl) ==> ClaimRestUrl(aud) <= RequestUrl(mailbox, aud, convertToRestId)
    ensures Contains(RequestUrl(mailbox, aud, convertToRestId), TransportHeadersFilter)
    ensures ParseMessageUrl(RestUrl(mailbox.restUrl, aud), RequestUrl(mailbox, aud, convertToRestId))
      == Some(ItemRestId(mailbox.hostName, mailbox.itemId, convertToRestId))
  {
    var baseUrl := RestUrl(mailbox.restUrl, aud);
    var id := ItemRestId(mailbox.hostName, mailbox.itemId, convertToRestId);
    MessageUrlShape(baseUrl, id);
    ParseMessageUrlInverse(baseUrl, MessageUrl(baseUrl, id), id);
  }

  /**
   * A configured base URL decides where the request goes whatever the token
   * says: two tokens give the same request URL, it starts with the configured
   * URL, and parsing it against that URL gives back the REST id.
   */
  lemma RequestUrlConfiguredIgnoresToken(mailbox: Mailbox, aud1: string, aud2: string,
                                         convertToRestId: (string, RestVersion) -> string)
    requires HasConfiguredUrl(mailbox.restUrl)
    ensures RequestUrl(mailbox, aud1, convertToRestId) == RequestUrl(mailbox, aud2, convertToRestId)
    ensures mailbox.restUrl.value <= RequestUrl(mailbox, aud1, convertToRestId)
    ensures ParseMessageUrl(mailbox.restUrl.value, RequestUrl(mailbox, aud1, convertToRestId))
      == Some(ItemRestId(mailbox.hostName, mailbox.itemId, convertToRestId))
  {
    RequestUrlShape(mailbox, aud1, convertToRestId);
  }

  /**
   * The item id in the request URL: on Outlook for iOS the raw id unchanged,
   * on every other host the converter's v2.0 id.
   */
  lemma RequestUrlRestId(mailbox: Mailbox, aud: string, convertToRestId: (string, RestVersion) -> string)
    ensures mailbox.hostName == IosHostName ==>
      ParseMessageUrl(RestUrl(mailbox.restUrl, aud), RequestUrl(mailbox, aud, convertToRestId)) == Some(mailbox.itemId)
    ensures mailbox.hostName != IosHostName ==>
      ParseMessageUrl(RestUrl(mailbox.restUrl, aud), RequestUrl(mailbox, aud, convertToRestId))
        == Some(convertToRestId(mailbox.itemId, V2_0))
  {
    RequestUrlShape(mailbox, aud, convertToRestId);
  }
}
