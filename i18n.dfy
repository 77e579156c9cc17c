/** The client half of the locale pipeline: the translation session a view
    holds (its locale state, its "switch in progress" flag and the
    translation set its loader delivered), key lookup with fallback to the
    key, and the language switch that persists the choice and has the
    router re-run the loader. */
module I18n {
  import opened Wrappers
  import opened LocaleLens

  /** `translations[key] ?? key`: the text for `key`, or `key` itself when
      the set has no entry for it. */
  function Lookup(translations: Translations, key: string): (r: string)
    ensures key in translations ==> r == translations[key]
    ensures key !in translations ==> r == key
  {
    if key in translations then translations[key] else key
  }

  /** `??` falls back only on absence: a key mapped to the empty text gives
      the empty text, not the key. */
  lemma LookupKeepsEmptyText(translations: Translations, key: string)
    requires key in translations && translations[key] == ""
    ensures Lookup(translations, key) == ""
  {
  }

  /** In degraded mode (an empty set) every key is shown as itself. */
  lemma LookupDegraded(key: string)
    ensures Lookup(map[], key) == key
  {
  }

  /** When the catalog is not configured, the loader's set is empty and the
      page shows each key as itself, whatever locale was resolved. */
  lemma MissingConfigShowsKeys(cookie: Option<string>, header: Option<string>, env: Env, transport: Transport, key: string)
    requires !Configured(env)
    ensures LoadTranslations(cookie, header, env, transport).Some?
    ensures Lookup(LoadTranslations(cookie, header, env, transport).value.translations, key) == key
  {
    LoadWithoutConfig(cookie, header, env, transport);
  }

  /** One observable step of a language switch, in the order it happens. */
  datatype Effect =
    | ChangingSet(changing: bool)
    | LocaleSet(locale: LocaleCode)
    | CookieWritten(value: string)
    | RouterInvalidated

  /** Where a `setLocale` call stands: not running, or suspended at one of
      its two awaits with the locale it was called with. */
  datatype Phase = Idle | AwaitingCookie(target: LocaleCode) | AwaitingInvalidate(target: LocaleCode)

  /** `I18nProvider`: the state one rendered view holds. */
  class Provider {
    var locale: LocaleCode
    var isChanging: bool
    var translations: Translations
    const jar: CookieJar
    /** Where the pending `setLocale` call is suspended. The source keeps
        this in the runtime's pending promise, not in a field. */
    var phase: Phase
    ghost var effects: seq<Effect>

    /** A suspended switch has set the flag and the locale it switches to. */
    ghost predicate Valid()
      reads this
    {
      phase != Idle ==> isChanging && locale == phase.target
    }

    /** Mounting with the loader's data: `useState(initialLocale)` and
        `useState(false)`. */
    constructor (initialLocale: LocaleCode, initialTranslations: Translations, jar: CookieJar)
      ensures Valid() && phase == Idle && effects == []
      ensures locale == initialLocale && !isChanging
      ensures translations == initialTranslations && this.jar == jar
    {
      locale := initialLocale;
      isChanging := false;
      translations := initialTranslations;
      this.jar := jar;
      phase := Idle;
      effects := [];
    }

    /** `t`: memoised on the translation set alone, so for an unchanged set
        it gives the same text for the same key. */
    function T(key: string): (r: string)
      reads this
      ensures r == Lookup(translations, key)
    {
      Lookup(translations, key)
    }

    /** `setLocale` up to its first await: a no-op for the current locale;
        otherwise the flag is set, then the locale. */
    method Begin(newLocale: LocaleCode) returns (started: bool)
      requires Valid() && phase == Idle
      modifies this
      ensures Valid() && translations == old(translations)
      ensures forall k :: T(k) == old(T(k))
      ensures started == (newLocale != old(locale))
      ensures !started ==> (locale == old(locale) && isChanging == old(isChanging)
                            && phase == Idle && effects == old(effects))
      ensures started ==> (locale == newLocale && isChanging && phase == AwaitingCookie(newLocale)
                           && effects == old(effects) + [ChangingSet(true), LocaleSet(newLocale)])
    {
      if newLocale == locale {
        return false;
      }
      isChanging := true;
      effects := effects + [ChangingSet(true)];
      locale := newLocale;
      effects := effects + [LocaleSet(newLocale)];
      phase := AwaitingCookie(newLocale);
      started := true;
    }

    /** The cookie write settles. When `delivered`, the cookie holds the
        target and the call goes on to invalidate; otherwise the call
        rejects here, leaving the flag set and the new locale in place. */
    method CookieSettled(delivered: bool)
      requires Valid() && phase.AwaitingCookie?
      modifies this, jar
      ensures Valid() && isChanging
      ensures locale == old(locale) && translations == old(translations)
      ensures forall k :: T(k) == old(T(k))
      ensures delivered ==> (jar.cookies == old(jar.cookies)[LocaleCookie := PreferenceCookie(old(phase).target.Code())]
                             && phase == AwaitingInvalidate(old(phase).target)
                             && effects == old(effects) + [CookieWritten(old(phase).target.Code())])
      ensures !delivered ==> jar.cookies == old(jar.cookies) && phase == Idle && effects == old(effects)
    {
      var target := phase.target;
      if delivered {
        var _ := jar.SetLocaleCookie(target.Code());
        effects := effects + [CookieWritten(target.Code())];
        phase := AwaitingInvalidate(target);
      } else {
        phase := Idle;
      }
    }

    /** The router invalidation settles. When it resolves the flag is
        cleared; when it rejects the flag stays set. Neither way does the
        call touch the locale or the translation set. */
    method InvalidateSettled(invalidated: bool)
      requires Valid() && phase.AwaitingInvalidate?
      modifies this
      ensures Valid() && phase == Idle
      ensures locale == old(locale) && translations == old(translations)
      ensures forall k :: T(k) == old(T(k))
      ensures invalidated ==> !isChanging && effects == old(effects) + [RouterInvalidated, ChangingSet(false)]
      ensures !invalidated ==> isChanging && effects == old(effects)
    {
      phase := Idle;
      if invalidated {
        effects := effects + [RouterInvalidated];
        isChanging := false;
        effects := effects + [ChangingSet(false)];
      }
    }

    /** `setLocale(newLocale)` run to its end, given how its two awaits
        settle. The order of its effects is fixed: flag on, locale, cookie,
        invalidation, flag off; a rejection stops the sequence with no
        rollback. It never changes the translation set. */
    method SetLocale(newLocale: LocaleCode, cookieDelivered: bool, invalidated: bool)
      requires Valid() && phase == Idle
      modifies this, jar
      ensures Valid() && phase == Idle && translations == old(translations)
      ensures forall k :: T(k) == old(T(k))
      ensures newLocale == old(locale) ==>
                && locale == old(locale) && isChanging == old(isChanging)
                && jar.cookies == old(jar.cookies) && effects == old(effects)
      ensures newLocale != old(locale) ==>
                && locale == newLocale
                && isChanging == !(cookieDelivered && invalidated)
                && jar.cookies == if cookieDelivered
                                  then old(jar.cookies)[LocaleCookie := PreferenceCookie(newLocale.Code())]
                                  else old(jar.cookies)
      ensures newLocale != old(locale) && !cookieDelivered ==>
                effects == old(effects) + [ChangingSet(true), LocaleSet(newLocale)]
      ensures newLocale != old(locale) && cookieDelivered && !invalidated ==>
                effects == old(effects) + [ChangingSet(true), LocaleSet(newLocale), CookieWritten(newLocale.Code())]
      ensures newLocale != old(locale) && cookieDelivered && invalidated ==>
                effects == old(effects) + [ChangingSet(true), LocaleSet(newLocale), CookieWritten(newLocale.Code()),
                                           RouterInvalidated, ChangingSet(false)]
    {
      var started := Begin(newLocale);
      if started {
        CookieSettled(cookieDelivered);
        if cookieDelivered {
          InvalidateSettled(invalidated);
        }
      }
    }

    /** The language switcher's `onChange`. The select is disabled while
        `isChanging`, so then no event reaches `setLocale`; in particular a
        second request while a switch is suspended changes nothing. */
    method OnChange(newLocale: LocaleCode) returns (started: bool)
      requires Valid()
      modifies this
      ensures Valid() && translations == old(translations)
      ensures old(isChanging) ==> !started && unchanged(this)
      ensures old(phase) != Idle ==> !started && unchanged(this)
      ensures !old(isChanging) ==> started == (newLocale != old(locale))
      ensures !started ==> (locale == old(locale) && isChanging == old(isChanging)
                            && phase == old(phase) && effects == old(effects))
      ensures started ==> (locale == newLocale && isChanging && phase == AwaitingCookie(newLocale)
                           && effects == old(effects) + [ChangingSet(true), LocaleSet(newLocale)])
    {
      if isChanging {
        return false;
      }
      started := Begin(newLocale);
    }

    /** The view re-renders with new loader data. The translation set is
        replaced; the locale state is not, since `useState` reads its
        initial value only on mount. */
    method ReceiveLoaderData(data: LoaderData)
      modifies this`translations
      ensures translations == data.translations
    {
      translations := data.translations;
    }
  }

  /** A switch that completes: the cookie is written, the invalidation
      re-runs the loader against the request with the new cookie, the view
      receives its data, and the flag is cleared. The session ends up with
      the new locale and, when the loader does not raise, that locale's
      translation set. */
  method SwitchAndReload(p: Provider, target: LocaleCode, header: Option<string>, env: Env, transport: Transport)
    requires p.Valid() && p.phase == Idle && !p.isChanging && target != p.locale
    modifies p, p.jar
    ensures p.Valid() && p.phase == Idle && !p.isChanging && p.locale == target
    ensures p.jar.Get(LocaleCookie) == Some(target.Code())
    ensures GetTranslations(env, target.Code(), transport).Some? ==>
              p.translations == GetTranslations(env, target.Code(), transport).value
    ensures GetTranslations(env, target.Code(), transport).None? ==> p.translations == old(p.translations)
  {
    var started := p.OnChange(target);
    p.CookieSettled(true);
    ghost var cookies := old(p.jar.cookies);
    ReloadAfterWrite(cookies, target, header, env, transport);
    var data := LoadTranslations(p.jar.Get(LocaleCookie), header, env, transport);
    if data.Some? {
      p.ReceiveLoaderData(data.value);
    }
    p.InvalidateSettled(true);
  }

  /** Two requests in a row from the switcher: the second, made while the
      first is suspended at its cookie write, is ignored; exactly one cookie
      write takes effect. */
  method OverlappingSwitches(jar: CookieJar)
    modifies jar
  {
    var p := new Provider(En, map["home.tagline" := "Translate Everything"], jar);
    assert p.T("home.tagline") == "Translate Everything";
    assert p.T("home.missing") == "home.missing";
    var first := p.OnChange(De);
    assert first && p.locale == De && p.isChanging;
    var second := p.OnChange(Es);
    assert !second && p.locale == De && p.phase == AwaitingCookie(De);
    p.CookieSettled(true);
    p.InvalidateSettled(true);
    assert jar.Get(LocaleCookie) == Some("de");
    assert p.locale == De && !p.isChanging;
    assert p.effects == [ChangingSet(true), LocaleSet(De), CookieWritten("de"), RouterInvalidated, ChangingSet(false)];
  }
}
