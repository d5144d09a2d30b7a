/**
 * `locale_to_language`: a BCP 47 or POSIX locale tag folded to its bare
 * language subtag (section 2.2.1 of RFC 5646). The tag is lower-cased,
 * the regex `[-_\.].*$` is replaced by nothing, and the POSIX locale `c`
 * is mapped to `en`.
 */
module Locale {
  import opened Text
  import Regex

  /** The locale used when nothing else is configured. */
  const DefaultLocale: string := "en-US"

  /** The class `[-_\.]` that ends the language subtag. */
  const LanguageSeparators: Regex.Class := {'-', '_', '.'}

  /** The `[-_\.]` of the pattern `[-_\.].*$`. */
  const SuffixPattern: seq<Regex.Class> := [LanguageSeparators]

  /** A match of `[-_\.].*$` starts at i: a separator there, and no line feed after it. */
  predicate SuffixAt(s: string, i: int)
  {
    0 <= i < |s| && s[i] in LanguageSeparators && '\n' !in s[i + 1..]
  }

  lemma SuffixAtIsMatch(s: string)
    ensures forall i :: SuffixAt(s, i) <==> Regex.MatchesToEndAt(s, SuffixPattern, i)
  {
    forall i ensures SuffixAt(s, i) <==> Regex.MatchesToEndAt(s, SuffixPattern, i) {
      if 0 <= i < |s| {
        assert Regex.OccursAt(s, SuffixPattern, i) <==> s[i] in LanguageSeparators by {
          assert SuffixPattern[0] == LanguageSeparators;
        }
      }
    }
  }

  /** The lower-cased tag without its first suffix (the language subtag). */
  function Stem(lang: string): (r: string)
    ensures r <= Lowercase(lang)
    ensures |r| < |lang| ==> SuffixAt(Lowercase(lang), |r|)
    ensures forall j :: 0 <= j < |r| ==> !SuffixAt(Lowercase(lang), j)
  {
    SuffixAtIsMatch(Lowercase(lang));
    Regex.ReplaceFirstToEnd(Lowercase(lang), SuffixPattern)
  }

  /**
   * `locale_to_language`: the lower-cased language subtag, `en` for the
   * POSIX locale `c`. The result holds no upper-case ASCII letter, and a
   * separator survives in it only with a line feed somewhere after it.
   */
  function LocaleToLanguage(lang: string): (r: string)
    ensures forall j :: 0 <= j < |r| ==> !IsAsciiUpper(r[j])
    ensures forall j :: 0 <= j < |r| && r[j] in LanguageSeparators ==> '\n' in r[j + 1..]
    ensures r == "en" || r <= Lowercase(lang)
    ensures lang == [] ==> r == []
    ensures Stem(lang) == "c" ==> r == "en"
    ensures Stem(lang) != "c" ==> r == Stem(lang)
  {
    var stem := Stem(lang);
    StemHasNoSuffix(lang);
    if stem == "c" then "en" else stem
  }

  lemma StemHasNoSuffix(lang: string)
    ensures var stem := Stem(lang);
      forall j :: 0 <= j < |stem| && stem[j] in LanguageSeparators ==> '\n' in stem[j + 1..]
  {
    var stem := Stem(lang);
    assert Regex.NoLineFeed(SuffixPattern) by {
      assert SuffixPattern[0] == LanguageSeparators;
    }
    assert stem == Regex.ReplaceFirstToEnd(Lowercase(lang), SuffixPattern);
    Regex.NoMatchInResult(Lowercase(lang), SuffixPattern);
    SuffixAtIsMatch(stem);
    forall j | 0 <= j < |stem| && stem[j] in LanguageSeparators
      ensures '\n' in stem[j + 1..]
    {
      assert !SuffixAt(stem, j);
    }
  }

  /**
   * For every tag: the language is the lower-cased tag cut at the first
   * separator with no line feed after it (all of it when there is none),
   * with `c` read as `en`.
   */
  lemma LocaleToLanguageFirstSuffix(lang: string, n: int)
    requires 0 <= n <= |lang|
    requires n == |lang| || SuffixAt(Lowercase(lang), n)
    requires forall j :: 0 <= j < n ==> !SuffixAt(Lowercase(lang), j)
    ensures var cut := Lowercase(lang)[..n];
      LocaleToLanguage(lang) == if cut == "c" then "en" else cut
  {
    assert |Stem(lang)| == n;
  }

  /**
   * On a single line, the language is the lower-cased text before the first
   * separator (all of it when there is none), with `c` read as `en`.
   */
  lemma LocaleToLanguageCut(lang: string, i: int)
    requires '\n' !in lang
    requires 0 <= i <= |lang|
    requires forall j :: 0 <= j < i ==> lang[j] !in LanguageSeparators
    requires i == |lang| || lang[i] in LanguageSeparators
    ensures var cut := Lowercase(lang[..i]);
      LocaleToLanguage(lang) == if cut == "c" then "en" else cut
  {
    var low := Lowercase(lang);
    assert low[..i] == Lowercase(lang[..i]);
    assert '\n' !in low by {
      assert forall j :: 0 <= j < |lang| ==> low[j] == ToLower(lang[j]) && lang[j] != '\n';
    }
    SuffixAtIsMatch(low);
    if i < |lang| {
      assert SuffixPattern[0] == LanguageSeparators;
      assert Regex.OccursAt(low, SuffixPattern, i);
      forall j | 0 <= j < i ensures !Regex.OccursAt(low, SuffixPattern, j) {
        assert low[j] !in SuffixPattern[0];
      }
      Regex.ReplaceFirstPlain(low, SuffixPattern, i);
    } else {
      assert forall j :: 0 <= j < |low| ==> low[j] !in LanguageSeparators;
      assert low[..i] == low;
    }
  }

  /** Folding a language code again changes nothing. */
  lemma LocaleToLanguageIdempotent(lang: string)
    ensures LocaleToLanguage(LocaleToLanguage(lang)) == LocaleToLanguage(lang)
  {
    var r := LocaleToLanguage(lang);
    var stem := Stem(lang);
    assert Regex.NoLineFeed(SuffixPattern) by {
      assert SuffixPattern[0] == LanguageSeparators;
    }
    Regex.ReplaceFirstIdempotent(Lowercase(lang), SuffixPattern);
    LowercaseIdempotent(lang);
    if stem == "c" {
      assert r == "en";
      LocaleToLanguageCut("en", 2);
      assert Lowercase("en") == "en";
    } else {
      assert r == stem;
      assert Lowercase(stem) == stem by {
        assert stem == Lowercase(lang)[..|stem|];
        assert forall j :: 0 <= j < |stem| ==> ToLower(stem[j]) == stem[j];
      }
    }
  }

  lemma LocaleToLanguageRegion()
    ensures LocaleToLanguage("en-US") == "en"
  {
    LocaleToLanguageCut("en-US", 2);
  }

  lemma LocaleToLanguagePosix()
    ensures LocaleToLanguage("C") == "en"
  {
    LocaleToLanguageCut("C", 1);
  }

  lemma LocaleToLanguagePosixWithEncoding()
    ensures LocaleToLanguage("C.UTF-8") == "en"
  {
    LocaleToLanguageCut("C.UTF-8", 1);
  }

  lemma LocaleToLanguageRegionAndEncoding()
    ensures LocaleToLanguage("fr_FR.UTF-8") == "fr"
  {
    LocaleToLanguageCut("fr_FR.UTF-8", 2);
  }

  lemma DefaultLocaleLanguage()
    ensures LocaleToLanguage(DefaultLocale) == "en"
  {
    LocaleToLanguageRegion();
  }
}
