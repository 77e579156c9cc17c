/** The server half of the locale pipeline: the registry of supported
    locales, resolution of the request's locale from its cookie and its
    Accept-Language header, the fetch of a translation set from the remote
    catalog with its degradation to an empty set, the cookie that records
    an explicit choice, and the loader that chains resolution and fetch. */
module LocaleLens {
  import opened Wrappers
  import opened Strings

  // ---------------------------------------------------------------------
  // Registry
  // ---------------------------------------------------------------------

  /** A supported locale. */
  datatype LocaleCode = En | De | Es {

    /** The code as it appears in cookies, headers and URLs. */
    function Code(): (s: string)
      ensures |s| == 2 && '/' !in s && ',' !in s && '-' !in s
    {
      match this
      case En => "en"
      case De => "de"
      case Es => "es"
    }
  }

  /** `LOCALES`, in the order the source lists them. */
  const Locales: seq<string> := ["en", "de", "es"]

  /** `DEFAULT_LOCALE`. */
  const DefaultLocale: LocaleCode := En

  /** `LOCALES.includes(s)`, answered with the locale `s` names. */
  function Parse(s: string): (r: Option<LocaleCode>)
    ensures r.Some? <==> s in Locales
    ensures r.Some? ==> r.value.Code() == s
  {
    if s == "en" then Some(En)
    else if s == "de" then Some(De)
    else if s == "es" then Some(Es)
    else None
  }

  /** Every locale is in the registry under its own code, and parses back. */
  lemma {:induction false} CodeRoundTrip(l: LocaleCode)
    ensures l.Code() in Locales
    ensures Parse(l.Code()) == Some(l)
  {
    match l
    case En =>
    case De =>
    case Es =>
  }

  // ---------------------------------------------------------------------
  // Resolution (detectLocale)
  // ---------------------------------------------------------------------

  /** Step 2 of resolution on a header that is sent: its first
      comma-separated entry, cut at the first '-', lowercased, kept when it
      is a supported code. No trimming and no `;q=` parameter removal. */
  function HeaderLocale(header: string): (r: Option<LocaleCode>)
    ensures r.Some? ==> |header| >= 2 && ToLower(header[..2]) == r.value.Code()
  {
    Parse(ToLower(BeforeFirst(BeforeFirst(header, ','), '-')))
  }

  /** Reference reading of the header rule: the header opens with the two
      letters of `l`'s code in either case, followed by its end, a ',' or a
      '-'. */
  ghost predicate HeaderNames(header: string, l: LocaleCode)
  {
    && |header| >= 2
    && LowerChar(header[0]) == l.Code()[0]
    && LowerChar(header[1]) == l.Code()[1]
    && (|header| == 2 || header[2] == ',' || header[2] == '-')
  }

  /** The header rule and its reference reading agree on every header. */
  lemma HeaderLocaleSpec(header: string, l: LocaleCode)
    ensures HeaderLocale(header) == Some(l) <==> HeaderNames(header, l)
  {
    var entry := BeforeFirst(header, ',');
    var tag := BeforeFirst(entry, '-');
    CodeRoundTrip(l);
    if HeaderLocale(header) == Some(l) {
      var lower := ToLower(tag);
      assert lower == l.Code();
      assert |tag| == 2 && tag <= entry <= header;
      assert header[0] == tag[0] && header[1] == tag[1];
    }
    if HeaderNames(header, l) {
      assert header[0] != ',' && header[1] != ',' && header[0] != '-' && header[1] != '-';
      if |header| == 2 || header[2] == ',' {
        BeforeFirstIsUnique(header, ',', 2);
        assert entry == header[..2];
        BeforeFirstIsUnique(entry, '-', 2);
      } else {
        BeforeFirstCoversFreePrefix(header, ',', 3);
        assert entry[..3] == header[..3];
        BeforeFirstIsUnique(entry, '-', 2);
      }
      assert tag == header[..2];
      assert ToLower(tag) == l.Code();
    }
  }

  /** A header whose first entry names no supported locale contributes
      nothing. */
  lemma HeaderLocaleNone(header: string)
    requires forall l: LocaleCode :: !HeaderNames(header, l)
    ensures HeaderLocale(header) == None
  {
    HeaderLocaleSpec(header, En);
    HeaderLocaleSpec(header, De);
    HeaderLocaleSpec(header, Es);
  }

  /** `detectLocale`, given the `locale` cookie and the Accept-Language
      header of the request (either may be missing). */
  function Resolve(cookie: Option<string>, header: Option<string>): (r: LocaleCode)
    ensures cookie.Some? && cookie.value in Locales ==> r.Code() == cookie.value
    ensures r != DefaultLocale && !(cookie.Some? && cookie.value in Locales)
         ==> header.Some? && |header.value| >= 2 && ToLower(header.value[..2]) == r.Code()
  {
    if Truthy(cookie) && Parse(cookie.value).Some? then Parse(cookie.value).value
    else if Truthy(header) && HeaderLocale(header.value).Some? then HeaderLocale(header.value).value
    else DefaultLocale
  }

  /** Reference reading of resolution, in its priority order: a supported
      cookie, else a header that names a locale, else the default. */
  ghost predicate Resolves(cookie: Option<string>, header: Option<string>, l: LocaleCode)
  {
    if cookie.Some? && cookie.value in Locales then cookie.value == l.Code()
    else if header.Some? && exists h: LocaleCode :: HeaderNames(header.value, h) then HeaderNames(header.value, l)
    else l == DefaultLocale
  }

  /** Resolution picks exactly the locale the priority order names. */
  lemma ResolveSpec(cookie: Option<string>, header: Option<string>, l: LocaleCode)
    ensures Resolve(cookie, header) == l <==> Resolves(cookie, header, l)
  {
    CodeRoundTrip(l);
    if cookie.Some? && cookie.value in Locales {
    } else if header.Some? {
      HeaderLocaleSpec(header.value, l);
      var r := Resolve(cookie, header);
      HeaderLocaleSpec(header.value, r);
      if exists h: LocaleCode :: HeaderNames(header.value, h) {
        var h: LocaleCode :| HeaderNames(header.value, h);
        HeaderLocaleSpec(header.value, h);
      } else {
        HeaderLocaleNone(header.value);
      }
    }
  }

  /** A supported cookie wins whatever the header says. */
  lemma ResolveCookieWins(l: LocaleCode, header: Option<string>)
    ensures Resolve(Some(l.Code()), header) == l
  {
    CodeRoundTrip(l);
  }

  /** An unsupported or missing cookie is ignored: resolution is the same
      as without it. */
  lemma ResolveIgnoresUnsupportedCookie(cookie: Option<string>, header: Option<string>)
    requires cookie.None? || cookie.value !in Locales
    ensures Resolve(cookie, header) == Resolve(None, header)
  {
  }

  /** A header that names a supported locale decides when the cookie does not. */
  lemma ResolveByHeader(cookie: Option<string>, header: string, l: LocaleCode)
    requires cookie.None? || cookie.value !in Locales
    requires HeaderNames(header, l)
    ensures Resolve(cookie, Some(header)) == l
  {
    HeaderLocaleSpec(header, l);
  }

  /** With no usable cookie and no usable header the default is chosen. */
  lemma ResolveFallsBackToDefault(cookie: Option<string>, header: Option<string>)
    requires cookie.None? || cookie.value !in Locales
    requires header.None? || forall l: LocaleCode :: !HeaderNames(header.value, l)
    ensures Resolve(cookie, header) == DefaultLocale
  {
    if header.Some? {
      HeaderLocaleNone(header.value);
    }
  }

  /** A browser header with a region and a quality list: its language wins. */
  lemma ResolveRegionalHeader()
    ensures Resolve(None, Some("es-ES,en;q=0.9")) == Es
  {
    var h := "es-ES,en;q=0.9";
    assert h[0] == 'e' && h[1] == 's' && h[2] == '-';
    ResolveByHeader(None, h, Es);
  }

  /** The header's case does not matter. */
  lemma ResolveUpperCaseHeader()
    ensures Resolve(None, Some("DE-at")) == De
  {
    var h := "DE-at";
    assert h[0] == 'D' && h[1] == 'E' && h[2] == '-';
    ResolveByHeader(None, h, De);
  }

  /** An entry carrying a parameter or leading blank is not recognised. */
  lemma ResolveUntrimmedHeader()
    ensures Resolve(None, Some("es;q=0.9")) == En
    ensures Resolve(None, Some(" es")) == En
  {
    ResolveFallsBackToDefault(None, Some("es;q=0.9"));
    ResolveFallsBackToDefault(None, Some(" es"));
  }

  // ---------------------------------------------------------------------
  // Preference cookie (setLocaleCookie)
  // ---------------------------------------------------------------------

  /** `LOCALE_COOKIE`. */
  const LocaleCookie: string := "locale"

  /** One year, in seconds. */
  const OneYear: int := 60 * 60 * 24 * 365

  datatype SameSite = Lax | Strict | NoRestriction

  /** A stored cookie with the attributes the pipeline sets. */
  datatype Cookie = Cookie(value: string, maxAge: int, path: string, sameSite: SameSite)

  /** The cookie `setLocaleCookie` writes for `value`. */
  function PreferenceCookie(value: string): (c: Cookie)
    ensures c.maxAge == 31536000
  {
    Cookie(value, OneYear, "/", Lax)
  }

  /** `getCookie(name)`: the value stored under `name`, if any. */
  function CookieValue(cookies: map<string, Cookie>, name: string): (r: Option<string>)
    ensures r.Some? <==> name in cookies
    ensures r.Some? ==> r.value == cookies[name].value
  {
    if name in cookies then Some(cookies[name].value) else None
  }

  /** The visitor's cookie store, as the server functions see it. */
  class CookieJar {
    var cookies: map<string, Cookie>

    constructor (initial: map<string, Cookie>)
      ensures cookies == initial
    {
      cookies := initial;
    }

    /** `getCookie(name)`. */
    function Get(name: string): Option<string>
      reads this
    {
      CookieValue(cookies, name)
    }

    /** `setLocaleCookie`: overwrites the `locale` slot with exactly
        `locale`, supported or not; every other cookie stays as it was. */
    method SetLocaleCookie(locale: string) returns (ok: bool)
      modifies this
      ensures cookies == old(cookies)[LocaleCookie := PreferenceCookie(locale)]
      ensures Get(LocaleCookie) == Some(locale)
      ensures forall name :: name != LocaleCookie ==> Get(name) == old(Get(name))
      ensures ok
    {
      cookies := cookies[LocaleCookie := PreferenceCookie(locale)];
      ok := true;
    }
  }

  /** After the preference for `l` is written, the next resolution yields
      `l` whatever the header and the other cookies. */
  lemma WrittenPreferenceResolves(cookies: map<string, Cookie>, l: LocaleCode, header: Option<string>)
    ensures Resolve(CookieValue(cookies[LocaleCookie := PreferenceCookie(l.Code())], LocaleCookie), header) == l
  {
    ResolveCookieWins(l, header);
  }

  /** Writing an unsupported value is not refused, and resolution then
      ignores the cookie. */
  lemma WrittenUnsupportedIgnored(cookies: map<string, Cookie>, value: string, header: Option<string>)
    requires value !in Locales
    ensures CookieValue(cookies[LocaleCookie := PreferenceCookie(value)], LocaleCookie) == Some(value)
    ensures Resolve(CookieValue(cookies[LocaleCookie := PreferenceCookie(value)], LocaleCookie), header)
         == Resolve(None, header)
  {
  }

  // ---------------------------------------------------------------------
  // Translation fetch (getTranslations)
  // ---------------------------------------------------------------------

  /** `Translations`: a flat key to display text mapping. */
  type Translations = map<string, string>

  /** `LOCALELENS_API_BASE`. */
  const ApiBase: string := "https://localelens.ai/api/v1"

  /** The two environment variables the fetch needs. */
  datatype Env = Env(projectId: Option<string>, apiKey: Option<string>)

  /** An outgoing request: its URL and its Authorization header. */
  datatype Request = Request(url: string, authorization: string)

  /** A response, with its body already read as a translation set. */
  datatype Response = Response(status: int, body: Translations) {
    /** `res.ok`: a 2xx status. */
    predicate Ok() {
      200 <= status <= 299
    }
  }

  /** What the network does with a request: a response, or `None` for a
      transport failure, which makes `fetch` throw. */
  type Transport = Request -> Option<Response>

  /** Why the fetch ended as it did. */
  datatype FetchOutcome =
    | Loaded(translations: Translations)
    | MissingConfig
    | HttpError(status: int)
    | TransportFailed

  /** The catalog URL for `locale` in project `projectId`. */
  function Url(projectId: string, locale: string): (r: string)
    ensures ApiBase <= r
    ensures '/' !in locale ==> AfterLast(r, '/') == locale
  {
    var prefix := ApiBase + "/projects/" + projectId + "/translations";
    assert ApiBase + "/projects/" + projectId + "/translations/" + locale == prefix + ['/'] + locale;
    if '/' !in locale then AfterLastOfJoin(prefix, '/', locale); prefix + ['/'] + locale
    else prefix + ['/'] + locale
  }

  /** The locale a catalog URL asks for, read from its last path segment. */
  function UrlLocale(url: string): (r: Option<LocaleCode>)
    ensures r.Some? ==> |url| >= 2 && url[|url| - 2..] == r.value.Code()
    ensures r.Some? ==> |url| == 2 || url[|url| - 3] == '/'
  {
    Parse(AfterLast(url, '/'))
  }

  /** The URL asks for exactly the locale it was built from, whatever the
      project id (which may itself contain '/'). */
  lemma UrlNamesLocale(projectId: string, l: LocaleCode)
    ensures UrlLocale(Url(projectId, l.Code())) == Some(l)
  {
    var prefix := ApiBase + "/projects/" + projectId + "/translations";
    assert Url(projectId, l.Code()) == prefix + ['/'] + l.Code();
    AfterLastOfJoin(prefix, '/', l.Code());
    CodeRoundTrip(l);
  }

  /** Both environment variables are set and not empty. */
  predicate Configured(env: Env)
  {
    Truthy(env.projectId) && Truthy(env.apiKey)
  }

  /** The one request the fetch sends, or `None` when it sends none. */
  function RequestFor(env: Env, locale: string): (r: Option<Request>)
    ensures r.Some? <==> Configured(env)
    ensures r.Some? ==> r.value.url == Url(env.projectId.value, locale)
    ensures r.Some? ==> r.value.authorization == "Bearer " + env.apiKey.value
  {
    if !Configured(env) then None
    else Some(Request(Url(env.projectId.value, locale), "Bearer " + env.apiKey.value))
  }

  /** The decision `getTranslations` takes, with its reason. */
  function Fetch(env: Env, locale: string, transport: Transport): (o: FetchOutcome)
    ensures o.MissingConfig? <==> !Configured(env)
    ensures o.TransportFailed? <==> Configured(env) && transport(RequestFor(env, locale).value).None?
    ensures o.HttpError? ==> Configured(env) && transport(RequestFor(env, locale).value) == Some(Response(o.status, transport(RequestFor(env, locale).value).value.body))
                             && !(200 <= o.status <= 299)
    ensures o.Loaded? ==> Configured(env) && transport(RequestFor(env, locale).value).Some?
                          && transport(RequestFor(env, locale).value).value.Ok()
                          && o.translations == transport(RequestFor(env, locale).value).value.body
  {
    match RequestFor(env, locale)
    case None => MissingConfig
    case Some(req) =>
      match transport(req)
      case None => TransportFailed
      case Some(res) => if !res.Ok() then HttpError(res.status) else Loaded(res.body)
  }

  /** The fetch looks at the network only through the one request it sends:
      two transports that agree on it, or any two transports when
      configuration is missing, give the same outcome. */
  lemma FetchSendsOnlyItsRequest(env: Env, locale: string, t1: Transport, t2: Transport)
    requires RequestFor(env, locale).None? || t1(RequestFor(env, locale).value) == t2(RequestFor(env, locale).value)
    ensures Fetch(env, locale, t1) == Fetch(env, locale, t2)
  {
  }

  /** `getTranslations`: the translation set it resolves to, or `None`
      when it throws (a transport failure is not caught). */
  function GetTranslations(env: Env, locale: string, transport: Transport): (r: Option<Translations>)
    ensures !Configured(env) ==> r == Some(map[])
    ensures Configured(env) ==> match transport(RequestFor(env, locale).value)
      case None => r.None?
      case Some(res) => r == Some(if res.Ok() then res.body else map[])
  {
    match Fetch(env, locale, transport)
    case Loaded(m) => Some(m)
    case MissingConfig => Some(map[])
    case HttpError(_) => Some(map[])
    case TransportFailed => None
  }

  /** Only a transport failure raises; every other failure degrades to the
      empty set. */
  lemma GetTranslationsDegrades(env: Env, locale: string, transport: Transport)
    ensures GetTranslations(env, locale, transport).None? <==> Fetch(env, locale, transport).TransportFailed?
    ensures Fetch(env, locale, transport).MissingConfig? || Fetch(env, locale, transport).HttpError?
        ==> GetTranslations(env, locale, transport) == Some(map[])
  {
  }

  // ---------------------------------------------------------------------
  // Loader (loadTranslations)
  // ---------------------------------------------------------------------

  /** What the route loader hands to the provider. */
  datatype LoaderData = LoaderData(locale: LocaleCode, translations: Translations)

  /** `loadTranslations`: resolve, then fetch for the resolved locale;
      `None` when the fetch throws. */
  function LoadTranslations(cookie: Option<string>, header: Option<string>, env: Env, transport: Transport): (r: Option<LoaderData>)
    ensures r.Some? ==> r.value.locale == Resolve(cookie, header)
    ensures r.Some? <==> GetTranslations(env, Resolve(cookie, header).Code(), transport).Some?
    ensures r.Some? ==> r.value.translations == GetTranslations(env, Resolve(cookie, header).Code(), transport).value
  {
    var locale := Resolve(cookie, header);
    match GetTranslations(env, locale.Code(), transport)
    case None => None
    case Some(m) => Some(LoaderData(locale, m))
  }

  /** The loader's only request asks the catalog for the locale it resolved,
      and what it returns is that locale's fetch. */
  lemma LoadFetchesResolvedLocale(cookie: Option<string>, header: Option<string>, env: Env, transport: Transport)
    requires Configured(env)
    ensures UrlLocale(RequestFor(env, Resolve(cookie, header).Code()).value.url) == Some(Resolve(cookie, header))
    ensures LoadTranslations(cookie, header, env, transport).Some?
        <==> GetTranslations(env, Resolve(cookie, header).Code(), transport).Some?
    ensures LoadTranslations(cookie, header, env, transport).Some?
        ==> Some(LoadTranslations(cookie, header, env, transport).value.translations)
            == GetTranslations(env, Resolve(cookie, header).Code(), transport)
  {
    UrlNamesLocale(env.projectId.value, Resolve(cookie, header));
  }

  /** With configuration missing the loader never raises and delivers the
      empty set for whatever locale it resolves. */
  lemma LoadWithoutConfig(cookie: Option<string>, header: Option<string>, env: Env, transport: Transport)
    requires !Configured(env)
    ensures LoadTranslations(cookie, header, env, transport) == Some(LoaderData(Resolve(cookie, header), map[]))
  {
  }

  /** After the preference for `l` is written, the reloaded data is `l`'s. */
  lemma ReloadAfterWrite(cookies: map<string, Cookie>, l: LocaleCode, header: Option<string>, env: Env, transport: Transport)
    ensures var data := LoadTranslations(CookieValue(cookies[LocaleCookie := PreferenceCookie(l.Code())], LocaleCookie), header, env, transport);
      data.Some? ==> data.value.locale == l && Some(data.value.translations) == GetTranslations(env, l.Code(), transport)
  {
    WrittenPreferenceResolves(cookies, l, header);
  }
}
