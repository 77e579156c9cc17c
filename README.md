# Locale negotiation and translation delivery, in Dafny

This project models the locale pipeline of the LocaleLens demo site
(TanStack Start). On each server render the site picks a locale from the
visitor's `locale` cookie and the Accept-Language header (section 12.5.4 of
RFC 9110). It then fetches that locale's translation set from the
LocaleLens catalog, and degrades to an empty set when the catalog is not
configured or answers with an error. The client keeps the locale and the
translation set in an `I18nProvider`, looks keys up with a fallback to the
key itself, and switches language by writing the cookie and invalidating
the router so that the loader runs again.

Files:

- `wrappers.dfy`: `Option` and JavaScript truthiness of an optional string.
- `strings.dfy`: `split(sep)[0]`, the last path segment, and `toLowerCase`.
- `localelens.dfy` (`src/lib/localelens.ts`): the registry, `detectLocale` as
  `Resolve`, the cookie jar and `setLocaleCookie`, `getTranslations` as
  `Fetch`/`GetTranslations` with the request it sends, and `loadTranslations`.
- `i18n.dfy` (`src/lib/i18n.tsx`): key lookup, and the `Provider` class with
  the fields `locale`, `isChanging` and `translations`. `setLocale` is split
  at its two awaits (`Begin`, `CookieSettled`, `InvalidateSettled`), and
  `SetLocale` runs them in order. The class also holds the language
  switcher's guarded `OnChange` and the re-render with new loader data.
  `OverlappingSwitches` is the overlapping-switch scenario. It asserts that
  a second request made while a switch waits on its cookie write is ignored,
  and that exactly one cookie write takes effect.

Inputs that the code reads from its surroundings are parameters:

- the cookie value and the header, for resolution;
- the two environment variables, as `Env`;
- the network, as a `Transport` function from the request to a response,
  or to `None` for a transport failure;
- how each await of `setLocale` settles, as booleans.

A ghost `effects` log in the provider records each observable step of a
switch, so that their order can be stated.

Where the design intent and the code differ, the model follows the code:

- A transport failure is not caught. `fetch` throws and `getTranslations`
  rejects, so `GetTranslations` returns `None`. It is not the empty set.
- `setLocale` itself does not refuse a second switch while one is running.
  The only guard is the switcher's `disabled={isChanging}`, modelled by
  `OnChange`.
- A rejected cookie write or invalidation leaves `isChanging` set and keeps
  the new locale. There is no `finally` and no rollback, so `isChanging` is
  not cleared and the switcher stays disabled.
- `setLocaleCookie` stores any string it is given. Resolution, not the
  write, ignores unsupported values.
- New loader data replaces `translations` only. The provider's `locale`
  state is never reset from props, because `useState` reads its initial
  value once.

## Model

| member | source | states |
|---|---|---|
| `LocaleLens.Parse` | src/lib/localelens.ts:6-7 | A string is accepted exactly when it is one of `en`, `de`, `es`, and the accepted locale's code is that string |
| `LocaleLens.CodeRoundTrip` | src/lib/localelens.ts:6-7 | Every locale's code is in `LOCALES` and parses back to that locale |
| `Strings.BeforeFirst` | src/lib/localelens.ts:28 | `split(sep)[0]` is a prefix of the input, holds no `sep`, and ends at the first `sep` or at the end of the input |
| `Strings.BeforeFirstIsUnique` | src/lib/localelens.ts:28 | Any `sep`-free prefix that ends at a `sep` or at the end is the first segment |
| `Strings.BeforeFirstCoversFreePrefix` | src/lib/localelens.ts:28 | A `sep`-free prefix is contained in the first segment |
| `Strings.ToLower` | src/lib/localelens.ts:28 | Lowercasing keeps the length and maps each character on its own |
| `LocaleLens.HeaderLocale` | src/lib/localelens.ts:26-31 | A locale picked from the header is the lowercased first two characters of the header (its full reading is `HeaderLocaleSpec`) |
| `LocaleLens.Resolve` | src/lib/localelens.ts:17-35 | A supported cookie is returned as is. A non-default result without a supported cookie comes from the header's first two characters, lowercased (its full reading is `ResolveSpec`) |
| `LocaleLens.HeaderLocaleSpec` | src/lib/localelens.ts:26-31 | The header picks locale `l` if and only if it opens with `l`'s two letters in either case, followed by its end, `,` or `-` |
| `LocaleLens.HeaderLocaleNone` | src/lib/localelens.ts:28-29 | A header whose first entry names no supported code contributes no locale |
| `LocaleLens.ResolveSpec` | src/lib/localelens.ts:17-35 | `detectLocale` returns `l` if and only if the priority order names `l`: a supported cookie first, then a header that names a locale, then `en` |
| `LocaleLens.ResolveCookieWins` | src/lib/localelens.ts:20-23 | A supported cookie value is returned whatever the header says |
| `LocaleLens.ResolveIgnoresUnsupportedCookie` | src/lib/localelens.ts:21 | A missing or unsupported cookie leaves resolution as if there were no cookie |
| `LocaleLens.ResolveByHeader` | src/lib/localelens.ts:26-31 | With no supported cookie, a header naming a locale decides |
| `LocaleLens.ResolveFallsBackToDefault` | src/lib/localelens.ts:26-34 | With no supported cookie and no header naming a locale, the result is `en` |
| `LocaleLens.ResolveRegionalHeader` | src/lib/localelens.ts:28-30 | `"es-ES,en;q=0.9"` resolves to `es` |
| `LocaleLens.ResolveUpperCaseHeader` | src/lib/localelens.ts:28-30 | `"DE-at"` resolves to `de` |
| `LocaleLens.ResolveUntrimmedHeader` | src/lib/localelens.ts:28-29 | `"es;q=0.9"` and `" es"` are not recognised and resolve to `en` |
| `LocaleLens.PreferenceCookie` | src/lib/localelens.ts:45-49 | The preference cookie lives one year (31536000 seconds) |
| `LocaleLens.CookieValue` | src/lib/localelens.ts:20 | `getCookie` finds a value exactly when the slot is set, and returns the stored value |
| `LocaleLens.CookieJar.SetLocaleCookie` | src/lib/localelens.ts:42-52 | The `locale` slot is overwritten with exactly the given string, with max-age one year, path `/` and SameSite Lax. No other cookie changes, and the result is `ok` |
| `LocaleLens.WrittenPreferenceResolves` | src/lib/localelens.ts:20-23 | After the preference for `l` is written, resolution returns `l` for every header |
| `LocaleLens.WrittenUnsupportedIgnored` | src/lib/localelens.ts:44-49 | An unsupported value is still stored, and resolution then ignores it |
| `LocaleLens.Url` | src/lib/localelens.ts:70 | The URL starts with the API base. For a locale without `/`, its last path segment is the locale |
| `LocaleLens.UrlLocale` | src/lib/localelens.ts:70 | A locale read from a URL is the URL's final two characters, preceded by `/` |
| `Strings.AfterLast` | src/lib/localelens.ts:70 | The last segment is a suffix free of `sep` that starts after the final `sep`, or is the whole string |
| `LocaleLens.UrlNamesLocale` | src/lib/localelens.ts:70 | The last path segment of the catalog URL is the locale it was built for, whatever the project id |
| `Strings.AfterLastOfJoin` | src/lib/localelens.ts:70 | The segment after the final `/` of a joined path is the part after the join |
| `LocaleLens.RequestFor` | src/lib/localelens.ts:62-76 | A request is sent exactly when both variables are set and non-empty. It goes to `{base}/projects/{projectId}/translations/{locale}` with `Bearer {apiKey}` |
| `LocaleLens.Fetch` | src/lib/localelens.ts:65-81 | The outcome says why: missing configuration exactly when a variable is unset or empty, a transport failure exactly when the request gets no response, an HTTP error with the non-2xx status received, or the body of a 2xx response |
| `LocaleLens.FetchSendsOnlyItsRequest` | src/lib/localelens.ts:65-76 | The outcome depends on the network only through that one request, and not at all when configuration is missing |
| `LocaleLens.GetTranslations` | src/lib/localelens.ts:58-85 | Missing configuration gives `{}`. Otherwise a non-2xx status gives `{}`, a 2xx status gives the body, and a transport failure raises |
| `LocaleLens.GetTranslationsDegrades` | src/lib/localelens.ts:65-81 | Only a transport failure raises. Missing configuration and an error status both give `{}` |
| `LocaleLens.LoadTranslations` | src/lib/localelens.ts:91-95 | The loader raises exactly when the fetch for the resolved locale raises. Otherwise it returns the resolved locale with that fetch's set |
| `LocaleLens.LoadFetchesResolvedLocale` | src/lib/localelens.ts:91-95 | The loader's request URL names the locale it resolved. The loader succeeds exactly when that fetch does, and returns its set |
| `LocaleLens.LoadWithoutConfig` | src/lib/localelens.ts:65-68 | Without configuration the loader never raises and returns the resolved locale with `{}` |
| `LocaleLens.ReloadAfterWrite` | src/lib/localelens.ts:91-94 | After the preference for `l` is written, the reloaded data is `l` with `l`'s fetched set |
| `I18n.Lookup` | src/lib/i18n.tsx:57 | `t(k)` is `translations[k]` when `k` is present, and `k` itself otherwise |
| `I18n.LookupKeepsEmptyText` | src/lib/i18n.tsx:57 | A key mapped to `""` gives `""`, not the key |
| `I18n.LookupDegraded` | src/lib/i18n.tsx:57 | With the empty set every key is shown as itself |
| `I18n.MissingConfigShowsKeys` | src/lib/i18n.tsx:57 | Without catalog configuration the page shows each key as itself |
| `I18n.Provider.constructor` | src/lib/i18n.tsx:32-39 | On mount, `locale` is the loader's locale and `isChanging` is false, with the loader's set and no switch in flight |
| `I18n.Provider.Begin` | src/lib/i18n.tsx:41-45 | Nothing happens for the current locale. Otherwise `isChanging` is set, then `locale`. The set is untouched, so `t` gives the same text for every key |
| `I18n.Provider.CookieSettled` | src/lib/i18n.tsx:47-48 | A delivered write stores the target in the cookie and moves on. A rejected one stops with `isChanging` still set, the new locale kept and the cookie unchanged. Either way `t` gives the same text for every key |
| `I18n.Provider.InvalidateSettled` | src/lib/i18n.tsx:50-53 | A resolved invalidation clears `isChanging`. A rejected one leaves it set. Neither changes `locale` or the set, so `t` gives the same text for every key |
| `I18n.Provider.SetLocale` | src/lib/i18n.tsx:41-54 | Nothing happens for the current locale. Otherwise the effects run in the order flag on, locale, cookie, invalidate, flag off, stopping at the first rejection without rollback. `isChanging` stays true after a rejection. `translations` never changes, so `t` gives the same text for every key until new loader data arrives |
| `I18n.Provider.OnChange` | src/components/LanguageSwitcher.tsx:18-19 | While `isChanging`, and so while a switch is suspended, a request changes nothing. Otherwise it starts `setLocale`, which for the current locale also changes nothing |
| `I18n.Provider.ReceiveLoaderData` | src/lib/i18n.tsx:32-39 | New loader props replace `translations` and nothing else. The `locale` state is kept |
| `I18n.SwitchAndReload` | src/lib/i18n.tsx:41-54 | A completed switch leaves the new locale and a cleared flag, with the cookie holding the new code. The set is the new locale's fetch, or unchanged when that fetch raised |

## Left out

- Real HTTP, `res.json()` parsing and its failures: the response arrives already read as a string-to-string map, and the transport is a parameter.
- A fetch timeout: the code has none, so a hung request is not represented.
- The `console.warn` and `console.error` calls: they are diagnostics only. `FetchOutcome` keeps the reason that they report.
- The TanStack server-function wrappers, `getRequestHeader` and `router.invalidate` internals: the cookie store is a `CookieJar` object, the header is a parameter, and invalidation is a settled-or-rejected step.
- React hooks, context, `useCallback` closures and `useI18n` throwing outside a provider: `setLocale` compares against the current `locale` field.
- `I18n.Lookup`: keys that name inherited JavaScript object members, such as `"toString"` or `"constructor"`, are not modelled. The source's `translations[key]` finds these on the object prototype, so `t` returns that member rather than the key.
- `I18n.LookupDegraded`: the same exception applies. With `{}`, a key naming an inherited object member does not echo in the source.
- `I18n.MissingConfigShowsKeys`: the same exception applies to the `{}` returned when configuration is missing.
- `Strings.ToLower`: only A-Z are mapped. No other character lowercases to a letter of `en`, `de` or `es`, so the resolved locale is the same.
- `I18n.Provider.CookieSettled`: a rejected cookie write is modelled as not having written the cookie. A request that reached the server before failing is not represented.
- `I18n.Provider.Begin`: requires that no switch is suspended, so two overlapping unguarded `setLocale` runs are not modelled. The switcher's guard excludes them, as `OnChange` shows.
- `I18n.SwitchAndReload`: a loader that raises during invalidation delivers no new data. The router's error rendering is not modelled.
- `src/lib/auth.ts`, the routes, `Header` and the switcher markup, and `LOCALE_LABELS`: these are presentation and mock login, outside the locale pipeline.
