/** src/LoadedLanguage.ts: the grammars loaded for one code block alias
    and the one used by default. */
module LoadedLanguage {
  import opened Wrappers

  class LoadedLanguage {
    var alias: string
    var defaultLanguage: Option<string>
    var languages: seq<string>

    /** The list holds no language twice and a set default is in it. */
    ghost predicate Valid()
      reads this
    {
      && (forall i, j :: 0 <= i < j < |languages| ==> languages[i] != languages[j])
      && (defaultLanguage.Some? ==> defaultLanguage.value in languages)
    }

    constructor (alias: string)
      ensures Valid()
      ensures this.alias == alias && defaultLanguage.None? && languages == []
    {
      this.alias := alias;
      defaultLanguage := None;
      languages := [];
    }

    /** `addLanguage`: appended only when not yet present. */
    method AddLanguage(language: string)
      requires Valid()
      modifies this
      ensures Valid()
      ensures languages == if language in old(languages) then old(languages) else old(languages) + [language]
      ensures alias == old(alias) && defaultLanguage == old(defaultLanguage)
    {
      if language !in languages {
        languages := languages + [language];
      }
    }

    /** `setDefaultLanguage`: throws for a language not loaded. */
    method SetDefaultLanguage(language: string) returns (r: Result<()>)
      requires Valid()
      modifies this
      ensures Valid()
      ensures r.Err? <==> language !in languages
      ensures r.Err? ==> defaultLanguage == old(defaultLanguage) && r.error == NotIncludedMessage(language, alias)
      ensures r.Ok? ==> defaultLanguage == Some(language)
      ensures alias == old(alias) && languages == old(languages)
    {
      if language !in languages {
        return Err(NotIncludedMessage(language, alias));
      }
      defaultLanguage := Some(language);
      return Ok(());
    }

    /** `getDefaultLanguage`: throws when no default is set; a default it
        returns is always one of the loaded languages. */
    method GetDefaultLanguage() returns (r: Result<string>)
      requires Valid()
      ensures r.Err? <==> defaultLanguage.None?
      ensures r.Err? ==> r.error == NoDefaultMessage(alias)
      ensures r.Ok? ==> Some(r.value) == defaultLanguage && r.value in languages
    {
      if defaultLanguage.None? {
        return Err(NoDefaultMessage(alias));
      }
      return Ok(defaultLanguage.value);
    }
  }

  function NotIncludedMessage(language: string, alias: string): string {
    "Language " + language + " is not included in the loaded languages for " + alias
  }

  function NoDefaultMessage(alias: string): string {
    "No default language set for " + alias
  }

  /** Adding the same language twice is adding it once. */
  method AddLanguageTwice(l: LoadedLanguage, language: string)
    requires l.Valid()
    modifies l
    ensures l.Valid()
    ensures l.languages == if language in old(l.languages) then old(l.languages) else old(l.languages) + [language]
  {
    l.AddLanguage(language);
    l.AddLanguage(language);
  }

  /** After a language is added, making it the default succeeds and reading
      the default gives it back. */
  method AddThenDefault(l: LoadedLanguage, language: string) returns (r: Result<string>)
    requires l.Valid()
    modifies l
    ensures r == Ok(language)
  {
    l.AddLanguage(language);
    var set_ := l.SetDefaultLanguage(language);
    assert set_.Ok?;
    r := l.GetDefaultLanguage();
  }
}
