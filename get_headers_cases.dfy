/**
 * Concrete cases of `getRestUrl` and `getItemRestId`: examples of the two
 * `aud` formats the source's comments name ("just the URL" and
 * "GUID/hostname@GUID"), and the corner cases of the two unanchored
 * regular expressions.
 */
module GetHeadersCases {
  import opened Wrappers
  import opened Strings
  import opened JsRegex
  import opened GetHeaders

  /** Every character of a contained string is a character of the container. */
  lemma ContainedCharsOccur(s: string, t: string, m: int)
    requires 0 <= m < |t|
    ensures Contains(s, t) ==> t[m] in s
  {
    if Contains(s, t) {
      var p :| OccursAt(s, t, p);
      assert s[p..p + |t|][m] == t[m];
      assert s[p + m] == t[m];
    }
  }

  /** A configured URL is used verbatim whatever the claim. */
  lemma ConfiguredUrlWins()
    ensures RestUrl(Some("https://example.test/rest"), "https://outlook.office365.com/") == "https://example.test/rest"
  {
  }

  /** Null and the empty string are both falsy: the claim decides. */
  lemma EmptyConfiguredUrlFallsThrough(aud: string)
    ensures RestUrl(None, aud) == ClaimRestUrl(aud)
    ensures RestUrl(Some(""), aud) == ClaimRestUrl(aud)
  {
  }

  /** Format 1: an `aud` that is a URL. */
  lemma UrlClaim()
    ensures ClaimRestUrl("https://contoso.example/foo") == "https://contoso.example/foo"
  {
    var aud := "https://contoso.example/foo";
    assert OccursAt(aud, Https, 0);
  }

  /** Format 1 is unanchored: `https://` in the middle is enough. */
  lemma UrlClaimNotAtStart()
    ensures ClaimRestUrl("x/https://h@t") == "x/https://h@t"
  {
    var aud := "x/https://h@t";
    assert aud[2..10] == Https;
    assert OccursAt(aud, Https, 2);
  }

  /** Format 2: `GUID/hostname@GUID`. */
  lemma GuidHostGuidClaim(guid: string, host: string, tenant: string)
    requires guid == "00000003-0000-0000-c000-000000000000"
    requires host == "outlook.office365.com"
    requires tenant == "tenant-guid"
    ensures ClaimRestUrl(guid + "/" + host + "@" + tenant) == "https://" + host
  {
    var aud := guid + "/" + host + "@" + tenant;
    assert !Contains(aud, Https) by {
      assert ':' !in aud;
      ContainedCharsOccur(aud, Https, 5);
    }
    assert ClaimRestUrl(aud) == Https + host by {
      ClaimRestUrlLeadHostRest(guid, host, tenant);
    }
  }

  /** The first `/` is taken, so a later `/` ends up inside the host. */
  lemma LeftmostSlashClaim()
    ensures ClaimRestUrl("api:" + "/" + "x/mail" + "@" + "t") == "https://x/mail"
  {
    ContainedCharsOccur("api:" + "/" + "x/mail" + "@" + "t", Https, 0);
    ClaimRestUrlLeadHostRest("api:", "x/mail", "t");
  }

  /** The group stops at the first `@` after the `/`. */
  lemma FirstAtClaim()
    ensures ClaimRestUrl("g" + "/" + "mail" + "@" + "a@b") == "https://mail"
  {
    ContainedCharsOccur("g" + "/" + "mail" + "@" + "a@b", Https, 0);
    ClaimRestUrlLeadHostRest("g", "mail", "a@b");
  }

  /** An empty group falls through to the default. */
  lemma EmptyHostClaim()
    ensures ClaimRestUrl("x/@y") == DefaultRestUrl
  {
    var aud := "x/@y";
    ContainedCharsOccur(aud, Https, 0);
    ClaimRestUrlEmptyHost(aud, 1);
  }

  /** A `/` with no `@` after it falls through to the default. */
  lemma NoAtAfterSlashClaim()
    ensures ClaimRestUrl("a@b/c") == DefaultRestUrl
  {
    var aud := "a@b/c";
    ContainedCharsOccur(aud, Https, 0);
    ClaimRestUrlNoHost(aud);
  }

  /** Outlook for iOS keeps the raw id; every other host converts it for v2.0. */
  lemma RestIdCases(convertToRestId: (string, RestVersion) -> string)
    ensures ItemRestId("OutlookIOS", "AAMk=", convertToRestId) == "AAMk="
    ensures ItemRestId("Outlook", "AAMk=", convertToRestId) == convertToRestId("AAMk=", V2_0)
  {
  }
}
