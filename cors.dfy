/**
 * The server's cross-origin policy: which request origins the API answers.
 * The two regular expressions of the allow-list are end-anchored literal
 * suffixes and are modelled as suffix tests.
 */
module Cors {
  import opened Wrappers

  /** An allow-list entry: an exact origin, or a pattern matching origins with this suffix. */
  datatype Allowed = Exact(origin: string) | Suffix(suffix: string)

  /** The fixed local development origins. */
  const LOCAL_ORIGINS: seq<string> :=
    ["http://localhost", "http://localhost:80", "http://localhost:5173", "http://localhost:3000"]

  const RENDER_SUFFIXES: seq<string> := [".onrender.com", ".render.com"]

  /** The rejection the policy reports. */
  datatype CorsError = NotAllowedByCors

  /** The end-anchored pattern test: the origin is some text followed by the suffix. */
  function EndsWith(s: string, suffix: string): (b: bool)
    ensures b <==> exists head :: s == head + suffix
  {
    if |suffix| <= |s| && s[|s| - |suffix|..] == suffix then
      assert s == s[..|s| - |suffix|] + suffix;
      true
    else
      false
  }

  /**
   * The allow-list: the local origins, the configured front-end URL unless it
   * is unset or empty (falsy entries are filtered out), and the two hosting
   * patterns.
   */
  function AllowedOrigins(frontendUrl: Option<string>): (list: seq<Allowed>)
    ensures Exact("") !in list
    ensures forall o :: Exact(o) in list <==>
      (o in LOCAL_ORIGINS || (frontendUrl.Some? && frontendUrl.value != "" && o == frontendUrl.value))
    ensures forall x :: Suffix(x) in list <==> x in RENDER_SUFFIXES
  {
    var locals := seq(|LOCAL_ORIGINS|, k requires 0 <= k < |LOCAL_ORIGINS| => Exact(LOCAL_ORIGINS[k]));
    var configured := if frontendUrl.Some? && frontendUrl.value != "" then [Exact(frontendUrl.value)] else [];
    var patterns := [Suffix(RENDER_SUFFIXES[0]), Suffix(RENDER_SUFFIXES[1])];
    assert forall o :: Exact(o) in locals <==> o in LOCAL_ORIGINS by {
      forall o ensures Exact(o) in locals <==> o in LOCAL_ORIGINS {
        if o in LOCAL_ORIGINS {
          var k :| 0 <= k < |LOCAL_ORIGINS| && LOCAL_ORIGINS[k] == o;
          assert locals[k] == Exact(o);
        }
      }
    }
    locals + configured + patterns
  }

  predicate EntryMatches(entry: Allowed, origin: string)
  {
    match entry
    case Exact(o) => origin == o
    case Suffix(x) => EndsWith(origin, x)
  }

  /** Whether some entry of the list matches the origin. */
  function AnyMatches(list: seq<Allowed>, origin: string): (b: bool)
    ensures b <==> exists e :: e in list && EntryMatches(e, origin)
  {
    if list == [] then false
    else
      assert forall e :: e in list <==> e == list[0] || e in list[1..];
      EntryMatches(list[0], origin) || AnyMatches(list[1..], origin)
  }

  /**
   * The origin callback: a missing or empty origin is allowed; otherwise the
   * origin is allowed when an allow-list entry matches it, and rejected with
   * the CORS error when none does.
   */
  function CheckOrigin(frontendUrl: Option<string>, origin: Option<string>): (r: Result<bool, CorsError>)
    ensures r.Ok? ==> r.value
    ensures r.Err? ==> r.error == NotAllowedByCors
    ensures r.Ok? <==>
      || origin.None?
      || origin.value == ""
      || origin.value in LOCAL_ORIGINS
      || (frontendUrl.Some? && frontendUrl.value != "" && origin.value == frontendUrl.value)
      || EndsWith(origin.value, ".onrender.com")
      || EndsWith(origin.value, ".render.com")
  {
    if origin.None? || origin.value == "" then Ok(true)
    else
      var o := origin.value;
      var list := AllowedOrigins(frontendUrl);
      assert Suffix(".onrender.com") in list && Suffix(".render.com") in list;
      assert o in LOCAL_ORIGINS || (frontendUrl.Some? && frontendUrl.value != "" && o == frontendUrl.value)
        ==> Exact(o) in list;
      if AnyMatches(list, o) then Ok(true) else Err(NotAllowedByCors)
  }

  /** An unset front-end URL and an empty one give the same policy, and neither admits anything extra. */
  lemma UnsetFrontendUrl(origin: string)
    requires origin != ""
    ensures CheckOrigin(None, Some(origin)) == CheckOrigin(Some(""), Some(origin))
    ensures CheckOrigin(None, Some(origin)).Ok? <==>
      origin in LOCAL_ORIGINS || EndsWith(origin, ".onrender.com") || EndsWith(origin, ".render.com")
  {
  }

  /** A hosted front end is allowed. */
  lemma HostedOriginAllowed()
    ensures CheckOrigin(None, Some("https://nclex-prep.onrender.com")) == Ok(true)
  {
    var hosted := "https://nclex-prep.onrender.com";
    assert hosted[|hosted| - 13..] == ".onrender.com";
  }

  /** The local development server is allowed, and so is a request without an origin. */
  lemma LocalOriginAllowed()
    ensures CheckOrigin(None, Some("http://localhost:5173")) == Ok(true)
    ensures CheckOrigin(None, None) == Ok(true)
  {
    assert LOCAL_ORIGINS[2] == "http://localhost:5173";
  }

  /** An unlisted host is rejected. */
  lemma ForeignOriginRejected()
    ensures CheckOrigin(None, Some("https://example.com")) == Err(NotAllowedByCors)
  {
    var other := "https://example.com";
    assert other[|other| - 13..] != ".onrender.com" by { assert other[|other| - 13] != '.'; }
    assert other[|other| - 11..] != ".render.com" by { assert other[|other| - 11] != '.'; }
    assert other !in LOCAL_ORIGINS by {
      forall k | 0 <= k < |LOCAL_ORIGINS| ensures LOCAL_ORIGINS[k] != other {
        assert LOCAL_ORIGINS[k][0..5] == "http:";
        assert other[0..5] != "http:" by { assert other[4] != ':'; }
      }
    }
  }
}
