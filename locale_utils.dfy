/**
 * The locale lookups by display country and by display language: each filters
 * the platform's available locales by a display name rendered in a given
 * locale, and memoises the result in a two-level cache keyed first by that
 * locale and then by the name.
 */
module LocaleUtils {
  import opened JavaLang

  /** A locale, compared by value as the cache keys are: `Locale.equals` compares
      language, country, variant, script and the extensions (kept here as their
      string form), so `sr_BA` and `sr_BA_#Latn` are different keys. */
  datatype Locale = Locale(language: string, country: string, variant: string,
                           script: string, extensions: string)

  /** Locale.ENGLISH. */
  const ENGLISH: Locale := Locale("en", "", "", "", "")

  /** What the platform supplies: the available locales in their order, and the
      display country and display language of a locale rendered in another one. */
  datatype LocaleData = LocaleData(
    available: seq<Locale>,
    displayCountry: (Locale, Locale) -> string,
    displayLanguage: (Locale, Locale) -> string)

  // ------------------------------------------------------ the filter

  /** Stream.filter(keep).toList(): the elements that satisfy keep, in order. */
  function Filter(s: seq<Locale>, keep: Locale -> bool): (r: seq<Locale>)
    ensures |r| <= |s|
    ensures forall i :: 0 <= i < |r| ==> keep(r[i])
  {
    if s == [] then []
    else
      var rest := Filter(s[1..], keep);
      if keep(s[0]) then [s[0]] + rest else rest
  }

  /** The filter keeps exactly the members that satisfy keep, each as often as
      it occurs. */
  lemma {:induction false} FilterMembers(s: seq<Locale>, keep: Locale -> bool)
    ensures forall l :: l in Filter(s, keep) <==> l in s && keep(l)
    ensures forall l :: multiset(Filter(s, keep))[l] == if keep(l) then multiset(s)[l] else 0
    decreases |s|
  {
    if s != [] {
      FilterMembers(s[1..], keep);
      assert s == [s[0]] + s[1..];
    }
  }

  /** Filtering keeps the order: filtering a concatenation concatenates the filtered parts. */
  lemma {:induction false} FilterAppend(a: seq<Locale>, b: seq<Locale>, keep: Locale -> bool)
    ensures Filter(a + b, keep) == Filter(a, keep) + Filter(b, keep)
    decreases |a|
  {
    if a != [] {
      var ab := a + b;
      assert ab[0] == a[0] && ab[1..] == a[1..] + b;
      FilterAppend(a[1..], b, keep);
      var head := if keep(a[0]) then [a[0]] else [];
      assert Filter(ab, keep) == head + Filter(a[1..] + b, keep);
      assert Filter(a, keep) == head + Filter(a[1..], keep);
    } else {
      assert a + b == b;
    }
  }

  /** Filtering twice by the same test changes nothing. */
  lemma {:induction false} FilterIdempotent(s: seq<Locale>, keep: Locale -> bool)
    ensures Filter(Filter(s, keep), keep) == Filter(s, keep)
    decreases |s|
  {
    if s != [] {
      FilterIdempotent(s[1..], keep);
    }
  }

  /** The test of valuesOfDisplayCountry: the locale's display country in
      inLocale is the name. */
  function CountryTest(data: LocaleData, inLocale: Locale, name: string): Locale -> bool {
    l => data.displayCountry(l, inLocale) == name
  }

  /** The test of valuesOfDisplayLanguage: the locale's display language in
      inLocale is not blank and is the name. */
  function LanguageTest(data: LocaleData, inLocale: Locale, name: string): Locale -> bool {
    l => !IsBlank(data.displayLanguage(l, inLocale)) && data.displayLanguage(l, inLocale) == name
  }

  /** The available locales whose display country in inLocale is the name. */
  function CountryValues(data: LocaleData, inLocale: Locale, name: string): (r: seq<Locale>)
    ensures forall i :: 0 <= i < |r| ==> data.displayCountry(r[i], inLocale) == name
    ensures forall l :: l in r <==> l in data.available && data.displayCountry(l, inLocale) == name
  {
    FilterMembers(data.available, CountryTest(data, inLocale, name));
    Filter(data.available, CountryTest(data, inLocale, name))
  }

  /** The available locales whose display language in inLocale is not blank and
      is the name. */
  function LanguageValues(data: LocaleData, inLocale: Locale, name: string): (r: seq<Locale>)
    ensures forall i :: 0 <= i < |r| ==> data.displayLanguage(r[i], inLocale) == name
    ensures forall l :: l in r <==>
      (l in data.available && !IsBlank(data.displayLanguage(l, inLocale)) && data.displayLanguage(l, inLocale) == name)
  {
    FilterMembers(data.available, LanguageTest(data, inLocale, name));
    Filter(data.available, LanguageTest(data, inLocale, name))
  }

  /** Every available locale is found when looking up its own display country. */
  lemma CountryOfEveryLocale(data: LocaleData, inLocale: Locale, l: Locale)
    requires l in data.available
    ensures l in CountryValues(data, inLocale, data.displayCountry(l, inLocale))
  {
  }

  /** For a non-blank name, the language test is the plain equality of names:
      the blank exclusion only ever removes locales a blank name would match. */
  lemma LanguageBlankExclusion(data: LocaleData, inLocale: Locale, name: string)
    requires !IsBlank(name)
    ensures forall l :: l in LanguageValues(data, inLocale, name) <==>
      l in data.available && data.displayLanguage(l, inLocale) == name
  {
  }

  // ------------------------------------------------------ the caches

  /** A cache: from inLocale, to display name, to the computed list. */
  type Cache = map<Locale, map<string, seq<Locale>>>

  /** The two nested computeIfAbsent calls: the inner map of inLocale (a new
      empty one when absent), with the value stored under the name unless one
      is already there. */
  function Memoize(cache: Cache, inLocale: Locale, name: string, value: seq<Locale>): (r: Cache)
    ensures r.Keys == cache.Keys + {inLocale}
    ensures name in r[inLocale]
    ensures inLocale in cache && name in cache[inLocale] ==> r == cache
    ensures !(inLocale in cache && name in cache[inLocale]) ==> r[inLocale][name] == value
  {
    var inner := if inLocale in cache then cache[inLocale] else map[];
    if name in inner then cache else cache[inLocale := inner[name := value]]
  }

  /** computeIfAbsent never modifies nor removes an entry already present, and
      adds none but the one asked for. */
  lemma MemoizeKeepsEntries(cache: Cache, inLocale: Locale, name: string, value: seq<Locale>)
    ensures var r := Memoize(cache, inLocale, name, value);
      && (forall k, n :: k in cache && n in cache[k] ==> k in r && n in r[k] && r[k][n] == cache[k][n])
      && (forall k, n :: k in r && n in r[k] ==> (k in cache && n in cache[k]) || (k == inLocale && n == name))
  {
  }

  /** Every cached list is the filter its keys ask for, under a non-blank name. */
  ghost predicate CacheHolds(cache: Cache, values: (Locale, string) -> seq<Locale>) {
    forall k, n :: k in cache && n in cache[k] ==> !IsBlank(n) && cache[k][n] == values(k, n)
  }

  /** Memoising the very value the filter gives keeps every cached list right. */
  lemma MemoizePreserves(cache: Cache, values: (Locale, string) -> seq<Locale>, inLocale: Locale, name: string)
    requires CacheHolds(cache, values)
    requires !IsBlank(name)
    ensures CacheHolds(Memoize(cache, inLocale, name, values(inLocale, name)), values)
  {
    MemoizeKeepsEntries(cache, inLocale, name, values(inLocale, name));
  }

  /** The two caches of the utility class, over the platform's locale data. */
  class LocaleUtils2 {
    const data: LocaleData
    var displayCountriesAndLocales: Cache
    var displayLanguagesAndLocales: Cache

    ghost predicate Valid()
      reads this
    {
      && CacheHolds(displayCountriesAndLocales, (k, n) => CountryValues(data, k, n))
      && CacheHolds(displayLanguagesAndLocales, (k, n) => LanguageValues(data, k, n))
    }

    /** Both caches start empty. */
    constructor (data: LocaleData)
      ensures this.data == data
      ensures displayCountriesAndLocales == map[] && displayLanguagesAndLocales == map[]
      ensures Valid()
    {
      this.data := data;
      displayCountriesAndLocales := map[];
      displayLanguagesAndLocales := map[];
    }

    /** valuesOfDisplayCountry: a null name throws NullPointerException, a blank
        one IllegalArgumentException, then a null inLocale NullPointerException;
        otherwise the matching locales, computed once and then served from the
        cache. */
    method ValuesOfDisplayCountry(displayCountry: Option<string>, inLocale: Option<Locale>)
      returns (r: Result<seq<Locale>>)
      requires Valid()
      modifies this`displayCountriesAndLocales
      ensures Valid()
      ensures displayCountry.None? ==> r == Throws(NullPointerException)
      ensures displayCountry.Some? && IsBlank(displayCountry.value) ==> r == Throws(IllegalArgumentException)
      ensures displayCountry.Some? && !IsBlank(displayCountry.value) && inLocale.None? ==>
        r == Throws(NullPointerException)
      ensures r.Throws? ==> displayCountriesAndLocales == old(displayCountriesAndLocales)
      ensures displayCountry.Some? && !IsBlank(displayCountry.value) && inLocale.Some? ==>
        && r == Ok(CountryValues(data, inLocale.value, displayCountry.value))
        && displayCountriesAndLocales ==
             Memoize(old(displayCountriesAndLocales), inLocale.value, displayCountry.value, r.value)
    {
      if displayCountry.None? {
        return Throws(NullPointerException);
      }
      var name := displayCountry.value;
      if IsBlank(name) {
        return Throws(IllegalArgumentException);
      }
      if inLocale.None? {
        return Throws(NullPointerException);
      }
      var key := inLocale.value;
      var inner := if key in displayCountriesAndLocales then displayCountriesAndLocales[key] else map[];
      var values: seq<Locale>;
      if name in inner {
        values := inner[name];
      } else {
        values := CountryValues(data, key, name);
      }
      MemoizePreserves(displayCountriesAndLocales, (k, n) => CountryValues(data, k, n), key, name);
      displayCountriesAndLocales := Memoize(displayCountriesAndLocales, key, name, values);
      r := Ok(values);
    }

    /** valuesOfDisplayCountryInEnglish: the same lookup rendered in ENGLISH. */
    method ValuesOfDisplayCountryInEnglish(displayCountryInEnglish: Option<string>) returns (r: Result<seq<Locale>>)
      requires Valid()
      modifies this`displayCountriesAndLocales
      ensures Valid()
      ensures displayCountryInEnglish.None? ==> r == Throws(NullPointerException)
      ensures displayCountryInEnglish.Some? && IsBlank(displayCountryInEnglish.value) ==>
        r == Throws(IllegalArgumentException)
      ensures displayCountryInEnglish.Some? && !IsBlank(displayCountryInEnglish.value) ==>
        && r == Ok(CountryValues(data, ENGLISH, displayCountryInEnglish.value))
        && displayCountriesAndLocales ==
             Memoize(old(displayCountriesAndLocales), ENGLISH, displayCountryInEnglish.value, r.value)
      ensures r.Throws? ==> displayCountriesAndLocales == old(displayCountriesAndLocales)
    {
      r := ValuesOfDisplayCountry(displayCountryInEnglish, Some(ENGLISH));
    }

    /** valuesOfDisplayLanguage: a null name throws NullPointerException, a blank
        one IllegalStateException, then a null inLocale NullPointerException;
        otherwise the locales with that non-blank display language, computed
        once and then served from the cache. */
    method ValuesOfDisplayLanguage(displayLanguage: Option<string>, inLocale: Option<Locale>)
      returns (r: Result<seq<Locale>>)
      requires Valid()
      modifies this`displayLanguagesAndLocales
      ensures Valid()
      ensures displayLanguage.None? ==> r == Throws(NullPointerException)
      ensures displayLanguage.Some? && IsBlank(displayLanguage.value) ==> r == Throws(IllegalStateException)
      ensures displayLanguage.Some? && !IsBlank(displayLanguage.value) && inLocale.None? ==>
        r == Throws(NullPointerException)
      ensures r.Throws? ==> displayLanguagesAndLocales == old(displayLanguagesAndLocales)
      ensures displayLanguage.Some? && !IsBlank(displayLanguage.value) && inLocale.Some? ==>
        && r == Ok(LanguageValues(data, inLocale.value, displayLanguage.value))
        && displayLanguagesAndLocales ==
             Memoize(old(displayLanguagesAndLocales), inLocale.value, displayLanguage.value, r.value)
    {
      if displayLanguage.None? {
        return Throws(NullPointerException);
      }
      var name := displayLanguage.value;
      if IsBlank(name) {
        return Throws(IllegalStateException);
      }
      if inLocale.None? {
        return Throws(NullPointerException);
      }
      var key := inLocale.value;
      var inner := if key in displayLanguagesAndLocales then displayLanguagesAndLocales[key] else map[];
      var values: seq<Locale>;
      if name in inner {
        values := inner[name];
      } else {
        values := LanguageValues(data, key, name);
      }
      MemoizePreserves(displayLanguagesAndLocales, (k, n) => LanguageValues(data, k, n), key, name);
      displayLanguagesAndLocales := Memoize(displayLanguagesAndLocales, key, name, values);
      r := Ok(values);
    }

    /** valuesOfDisplayLanguageInEnglish: the same lookup rendered in ENGLISH. */
    method ValuesOfDisplayLanguageInEnglish(displayLanguageInEnglish: Option<string>) returns (r: Result<seq<Locale>>)
      requires Valid()
      modifies this`displayLanguagesAndLocales
      ensures Valid()
      ensures displayLanguageInEnglish.None? ==> r == Throws(NullPointerException)
      ensures displayLanguageInEnglish.Some? && IsBlank(displayLanguageInEnglish.value) ==>
        r == Throws(IllegalStateException)
      ensures displayLanguageInEnglish.Some? && !IsBlank(displayLanguageInEnglish.value) ==>
        && r == Ok(LanguageValues(data, ENGLISH, displayLanguageInEnglish.value))
        && displayLanguagesAndLocales ==
             Memoize(old(displayLanguagesAndLocales), ENGLISH, displayLanguageInEnglish.value, r.value)
      ensures r.Throws? ==> displayLanguagesAndLocales == old(displayLanguagesAndLocales)
    {
      r := ValuesOfDisplayLanguage(displayLanguageInEnglish, Some(ENGLISH));
    }
  }

  /** Asking twice gives the same list, and the second call leaves the cache as
      the first one left it. */
  method AskCountryTwice(utils: LocaleUtils2, name: string, inLocale: Locale)
    returns (first: Result<seq<Locale>>, second: Result<seq<Locale>>)
    requires utils.Valid()
    modifies utils
    ensures first == second
    ensures !IsBlank(name) ==>
      && first == Ok(CountryValues(utils.data, inLocale, name))
      && inLocale in utils.displayCountriesAndLocales && name in utils.displayCountriesAndLocales[inLocale]
  {
    first := utils.ValuesOfDisplayCountry(Some(name), Some(inLocale));
    var afterFirst := utils.displayCountriesAndLocales;
    second := utils.ValuesOfDisplayCountry(Some(name), Some(inLocale));
    assert utils.displayCountriesAndLocales == afterFirst;
  }

  /** The blank check comes before the locale check: a blank name with a null
      locale is rejected for its blankness. */
  method BlankBeforeNullLocale(utils: LocaleUtils2)
    returns (country: Result<seq<Locale>>, language: Result<seq<Locale>>)
    requires utils.Valid()
    modifies utils
    ensures country == Throws(IllegalArgumentException)
    ensures language == Throws(IllegalStateException)
  {
    country := utils.ValuesOfDisplayCountry(Some(" "), None);
    language := utils.ValuesOfDisplayLanguage(Some(" "), None);
  }
}
