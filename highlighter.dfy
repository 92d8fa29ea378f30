/** The pure parts of `CodeHighlighter` (src/Highlighter.ts): the class list
    and inline style of a token, the languages that are safe to register,
    the guard in front of the tokenizer, and the loading of custom themes and
    custom languages. Shiki itself is not modelled: tokenization is an
    abstract function, and reading and parsing a JSON file is an abstract
    function that returns `None` where the source's `read` or `JSON.parse`
    throws. */
module Highlighter {
  import opened Wrappers
  import opened JsString

  /** A Shiki `ThemedToken`: its text, its offset in the highlighted code, and
      the optional colour and font-style bit mask. */
  datatype Token = Token(content: string, offset: int, color: Option<string>, fontStyle: Option<int>)

  datatype TokenStyle = TokenStyle(style: string, classes: seq<string>)

  /** `token.fontStyle ?? 0`. */
  function FontStyle(t: Token): int {
    t.fontStyle.GetOr(0)
  }

  /** `(fontStyle & 2^k) !== 0` for the bits 0, 1 and 2. JavaScript's `&`
      first wraps its operand to 32 bits in two's complement; that keeps the
      low bits, which are the remainders of the floor division below (Dafny's
      `/` by a positive divisor is floor division, also for negative numbers). */
  predicate FontBit(fs: int, k: nat)
    requires k < 3
  {
    (fs / (if k == 0 then 1 else if k == 1 then 2 else 4)) % 2 == 1
  }

  /** A template literal renders an absent colour as `undefined`. */
  function ColorText(c: Option<string>): string {
    match c
    case Some(s) => s
    case None => "undefined"
  }

  /** The three class names, in the order `getTokenStyle` lists them. */
  function ClassRank(c: string): int {
    if c == "shiki-italic" then 0 else if c == "shiki-bold" then 1 else if c == "shiki-ul" then 2 else 3
  }

  /** `getTokenStyle`. */
  function GetTokenStyle(t: Token): (r: TokenStyle)
    ensures r.style == "color: " + ColorText(t.color)
    ensures t.fontStyle == None ==> r.classes == []
  {
    var fs := FontStyle(t);
    TokenStyle("color: " + ColorText(t.color),
      (if FontBit(fs, 0) then ["shiki-italic"] else []) +
      (if FontBit(fs, 1) then ["shiki-bold"] else []) +
      (if FontBit(fs, 2) then ["shiki-ul"] else []))
  }

  /** Each class is present exactly when its bit of `fontStyle` is set, and
      the classes come in the order italic, bold, underline. */
  lemma TokenStyleClasses(t: Token)
    ensures var r := GetTokenStyle(t);
            && ("shiki-italic" in r.classes <==> FontBit(FontStyle(t), 0))
            && ("shiki-bold" in r.classes <==> FontBit(FontStyle(t), 1))
            && ("shiki-ul" in r.classes <==> FontBit(FontStyle(t), 2))
            && (forall i, j :: 0 <= i < j < |r.classes| ==> ClassRank(r.classes[i]) < ClassRank(r.classes[j]))
            && (forall i :: 0 <= i < |r.classes| ==> ClassRank(r.classes[i]) < 3)
  {
  }

  /** The bit that each class name stands for. */
  function ClassMask(cs: seq<string>): int {
    if cs == [] then 0
    else (if cs[0] == "shiki-italic" then 1 else if cs[0] == "shiki-bold" then 2 else if cs[0] == "shiki-ul" then 4 else 0)
         + ClassMask(cs[1..])
  }

  /** The class list is a faithful encoding of the three low bits: decoding
      it gives back `fontStyle` modulo 8 (so a missing `fontStyle` gives 0). */
  lemma TokenStyleRoundTrip(t: Token)
    ensures ClassMask(GetTokenStyle(t).classes) == FontStyle(t) % 8
  {
    var fs := FontStyle(t);
    var b0: seq<string> := if FontBit(fs, 0) then ["shiki-italic"] else [];
    var b1: seq<string> := if FontBit(fs, 1) then ["shiki-bold"] else [];
    var b2: seq<string> := if FontBit(fs, 2) then ["shiki-ul"] else [];
    assert GetTokenStyle(t).classes == b0 + (b1 + b2);
    ClassMaskAppend(b0, b1 + b2);
    ClassMaskAppend(b1, b2);
    LowBits(fs);
  }

  /** The three low bits of a number add up to its remainder modulo 8. */
  lemma LowBits(fs: int)
    ensures fs % 8 == (if FontBit(fs, 0) then 1 else 0) + (if FontBit(fs, 1) then 2 else 0) + (if FontBit(fs, 2) then 4 else 0)
  {
    var h := fs / 2;
    var q := fs / 4;
    var e := fs / 8;
    assert fs == 2 * h + fs % 2;
    assert fs == 4 * q + fs % 4;
    assert fs == 8 * e + fs % 8;
    assert h == 2 * q + (fs % 4) / 2;
    assert q == 2 * e + (fs % 8) / 4;
  }

  lemma {:induction false} ClassMaskAppend(xs: seq<string>, ys: seq<string>)
    ensures ClassMask(xs + ys) == ClassMask(xs) + ClassMask(ys)
  {
    if xs == [] {
      assert xs + ys == ys;
    } else {
      assert (xs + ys)[1..] == xs[1..] + ys;
      ClassMaskAppend(xs[1..], ys);
    }
  }

  /** The class attribute of a token: `classes.join(' ')`. */
  function ClassAttribute(t: Token): (r: string)
    ensures GetTokenStyle(t).classes == [] ==> r == []
  {
    Join(GetTokenStyle(t).classes, ' ')
  }

  /** `languageNameBlacklist`: languages that break the host's code-block
      processor registration. */
  const LanguageNameBlacklist: seq<string> := ["c++", "c#", "f#", "mermaid"]

  /** `xs` is `ys` with some elements left out and the rest in order. */
  predicate SubsequenceOf<T(==)>(xs: seq<T>, ys: seq<T>)
    decreases |ys|
  {
    xs == [] || (ys != [] && (if xs[0] == ys[0] then SubsequenceOf(xs[1..], ys[1..]) else SubsequenceOf(xs, ys[1..])))
  }

  predicate SafeLanguage(lang: string, disabled: seq<string>) {
    lang !in LanguageNameBlacklist && lang !in disabled
  }

  /** `obsidianSafeLanguageNames`: the supported languages minus the blacklist
      and minus the languages the user disabled, in their original order. */
  function ObsidianSafeLanguageNames(supported: seq<string>, disabled: seq<string>): (r: seq<string>)
    ensures forall x :: x in r <==> x in supported && x !in LanguageNameBlacklist && x !in disabled
    ensures SubsequenceOf(r, supported)
    ensures |r| <= |supported|
  {
    if supported == [] then []
    else if SafeLanguage(supported[0], disabled) then [supported[0]] + ObsidianSafeLanguageNames(supported[1..], disabled)
    else ObsidianSafeLanguageNames(supported[1..], disabled)
  }

  /** Shiki's `codeToTokens`: the lines of tokens of `code` in `lang`, or
      `None` where Shiki produces nothing. */
  type Tokenizer = (string, string) -> Option<seq<seq<Token>>>

  /** `getHighlightTokens`: the safe-language guard in front of the tokenizer. */
  function GetHighlightTokens(safe: seq<string>, tokenize: Tokenizer, code: string, lang: string): (r: Option<seq<seq<Token>>>)
    ensures lang !in safe ==> r == None
    ensures lang in safe ==> r == tokenize(code, lang)
  {
    if lang !in safe then None else tokenize(code, lang)
  }

  /** For an unsafe language the tokenizer is never consulted: any two
      tokenizers give the same (empty) answer. */
  lemma UnsafeLanguageIgnoresTokenizer(safe: seq<string>, t1: Tokenizer, t2: Tokenizer, code: string, lang: string)
    requires lang !in safe
    ensures GetHighlightTokens(safe, t1, code, lang) == GetHighlightTokens(safe, t2, code, lang) == None
  {
  }

  /** `usesCustomTheme`: the theme setting names a JSON file. */
  predicate UsesCustomTheme(theme: string) {
    EndsWith(theme, ".json")
  }

  /** A theme file as parsed (only the fields the plugin inspects). The
      `colors` and `tokenColors` flags say whether those fields are truthy. */
  datatype ThemeRecord = ThemeRecord(name: Option<string>, displayName: Option<string>, themeType: Option<string>,
                                     hasColors: bool, hasTokenColors: bool)

  /** A loaded custom theme. */
  datatype CustomTheme = CustomTheme(name: string, displayName: string, themeType: string)

  /** The validation and normalisation of one theme file in `loadCustomThemes`.
      `displayName` is computed before `name` is overwritten, so it falls back
      to the file's own `name`. */
  function NormaliseTheme(baseName: string, rec: ThemeRecord): (r: Result<CustomTheme>)
    ensures r.Err? <==> !rec.hasColors && !rec.hasTokenColors
    ensures r.Ok? ==> r.value.name == ToLower(baseName)
    ensures r.Ok? ==> r.value.themeType == (if rec.themeType.Some? then rec.themeType.value else "both")
    ensures r.Ok? ==> r.value.displayName == (if rec.displayName.Some? then rec.displayName.value
                                              else if rec.name.Some? then rec.name.value else baseName)
  {
    if !rec.hasColors && !rec.hasTokenColors then Err("Invalid JSON theme file.")
    else Ok(CustomTheme(ToLower(baseName), rec.displayName.GetOr(rec.name.GetOr(baseName)), rec.themeType.GetOr("both")))
  }

  /** A language file as parsed; only `name` is inspected. */
  datatype LanguageRecord = LanguageRecord(name: Option<string>, scopeName: Option<string>)

  /** `language.name`, where it is present. */
  function LanguageName(l: LanguageRecord): string {
    l.name.GetOr([])
  }

  /** `!language.name`: absent or the empty string. */
  predicate HasName(l: LanguageRecord) {
    l.name.Some? && l.name.value != []
  }

  /** The files of a folder listing that `loadCustomThemes` and
      `loadCustomLanguages` consider: those ending in `.json`, ignoring case. */
  function JsonFiles(files: seq<string>): (r: seq<string>)
    ensures forall f :: f in r <==> f in files && EndsWith(ToLower(f), ".json")
    ensures SubsequenceOf(r, files)
  {
    if files == [] then []
    else if EndsWith(ToLower(files[0]), ".json") then [files[0]] + JsonFiles(files[1..])
    else JsonFiles(files[1..])
  }

  /** Reading and parsing a file: `None` where the source catches an error. */
  type Loader<T> = string -> Option<T>

  /** The base name of a file in the theme folder: what follows `folder + "/"`. */
  function BaseName(folder: string, file: string): string {
    Substring(file, |folder| + 1, |file|)
  }

  /** The themes that the loop of `loadCustomThemes` pushes, in file order. */
  function ThemesFrom(folder: string, files: seq<string>, load: Loader<ThemeRecord>): seq<CustomTheme>
  {
    if files == [] then []
    else
      var last := files[|files| - 1];
      ThemesFrom(folder, files[..|files| - 1], load) +
      match load(last)
      case None => []
      case Some(rec) =>
        match NormaliseTheme(BaseName(folder, last), rec)
        case Err(_) => []
        case Ok(t) => [t]
  }

  /** Every pushed theme comes from a file that validated. */
  lemma {:induction false} ThemesFromValid(folder: string, files: seq<string>, load: Loader<ThemeRecord>, t: CustomTheme)
    requires t in ThemesFrom(folder, files, load)
    ensures exists i :: 0 <= i < |files| && load(files[i]).Some? &&
                        NormaliseTheme(BaseName(folder, files[i]), load(files[i]).value) == Ok(t)
  {
    var last := files[|files| - 1];
    var init := files[..|files| - 1];
    if t in ThemesFrom(folder, init, load) {
      ThemesFromValid(folder, init, load, t);
      var i :| 0 <= i < |init| && load(init[i]).Some? && NormaliseTheme(BaseName(folder, init[i]), load(init[i]).value) == Ok(t);
      assert files[i] == init[i];
    } else {
      assert files[|files| - 1] == last;
    }
  }

  /** The languages that the loop of `loadCustomLanguages` pushes, in file order. */
  function LanguagesFrom(files: seq<string>, load: Loader<LanguageRecord>): (r: seq<LanguageRecord>)
    ensures forall l :: l in r ==> HasName(l)
  {
    if files == [] then []
    else
      var last := files[|files| - 1];
      LanguagesFrom(files[..|files| - 1], load) +
      match load(last)
      case None => []
      case Some(l) => if HasName(l) then [l] else []
  }

  /** A file whose language record has no name contributes nothing. */
  lemma UnnamedLanguageSkipped(files: seq<string>, f: string, load: Loader<LanguageRecord>)
    requires load(f).Some? && !HasName(load(f).value)
    ensures LanguagesFrom(files + [f], load) == LanguagesFrom(files, load)
  {
    assert (files + [f])[..|files|] == files;
  }

  /** `Array.prototype.sort` with the comparator `localeCompare`, seen as an
      abstract total order `before` on display names. */
  ghost predicate TotalOrder(before: (string, string) -> bool) {
    forall a, b :: before(a, b) || before(b, a)
  }

  predicate SortedByDisplayName(ts: seq<CustomTheme>, before: (string, string) -> bool) {
    forall i :: 0 <= i < |ts| - 1 ==> before(ts[i].displayName, ts[i + 1].displayName)
  }

  function Insert(t: CustomTheme, ts: seq<CustomTheme>, before: (string, string) -> bool): (r: seq<CustomTheme>)
    ensures multiset(r) == multiset(ts) + multiset{t}
    ensures |r| == |ts| + 1
    ensures r[0] == t || (ts != [] && r[0] == ts[0])
  {
    if ts == [] || before(t.displayName, ts[0].displayName) then [t] + ts
    else
      assert ts == [ts[0]] + ts[1..];
      [ts[0]] + Insert(t, ts[1..], before)
  }

  lemma {:induction false} InsertSorted(t: CustomTheme, ts: seq<CustomTheme>, before: (string, string) -> bool)
    requires TotalOrder(before)
    requires SortedByDisplayName(ts, before)
    ensures SortedByDisplayName(Insert(t, ts, before), before)
  {
    if ts == [] || before(t.displayName, ts[0].displayName) {
    } else {
      assert before(ts[0].displayName, t.displayName);
      InsertSorted(t, ts[1..], before);
      var rest := Insert(t, ts[1..], before);
      assert Insert(t, ts, before) == [ts[0]] + rest;
    }
  }

  function SortByDisplayName(ts: seq<CustomTheme>, before: (string, string) -> bool): (r: seq<CustomTheme>)
    ensures multiset(r) == multiset(ts)
  {
    if ts == [] then []
    else
      assert ts == [ts[0]] + ts[1..];
      Insert(ts[0], SortByDisplayName(ts[1..], before), before)
  }

  /** The sort yields a permutation of the themes ordered by display name. */
  lemma {:induction false} SortByDisplayNameSorted(ts: seq<CustomTheme>, before: (string, string) -> bool)
    requires TotalOrder(before)
    ensures SortedByDisplayName(SortByDisplayName(ts, before), before)
    ensures multiset(SortByDisplayName(ts, before)) == multiset(ts)
  {
    if ts != [] {
      SortByDisplayNameSorted(ts[1..], before);
      InsertSorted(ts[0], SortByDisplayName(ts[1..], before), before);
    }
  }

  predicate HasThemeNamed(ts: seq<CustomTheme>, name: string) {
    exists i :: 0 <= i < |ts| && ts[i].name == name
  }

  /** The host's file system, as far as the loaders see it. `normalizePath`
      is taken to leave the folder setting unchanged. */
  datatype Folder = Folder(path: string, exists_: bool, files: seq<string>)

  /** The state of `CodeHighlighter` that the loaders fill in. */
  class CodeHighlighter {
    var customThemes: seq<CustomTheme>
    var customLanguages: seq<LanguageRecord>
    var supportedLanguages: seq<string>
    /** `loadedSettings.theme`. */
    var theme: string

    /** The lists are declared with `!` and stay unassigned until `load`;
        the empty lists stand for that state. */
    constructor(theme: string)
      ensures this.theme == theme && customThemes == [] && customLanguages == [] && supportedLanguages == []
    {
      this.theme := theme;
      customThemes := [];
      customLanguages := [];
      supportedLanguages := [];
    }

    /** `loadCustomThemes`: no folder or a missing folder loads nothing; else
        every valid `.json` file is loaded, the theme setting falls back to
        `defaultTheme` when it names a custom theme that did not load, and the
        list is sorted by display name. */
    method LoadCustomThemes(folder: Folder, load: Loader<ThemeRecord>, defaultTheme: string, before: (string, string) -> bool)
      requires TotalOrder(before)
      modifies this
      ensures customLanguages == old(customLanguages) && supportedLanguages == old(supportedLanguages)
      ensures folder.path == [] || !folder.exists_ ==> customThemes == [] && theme == old(theme)
      ensures folder.path != [] && folder.exists_ ==>
                var loaded := ThemesFrom(folder.path, JsonFiles(folder.files), load);
                && multiset(customThemes) == multiset(loaded)
                && SortedByDisplayName(customThemes, before)
                && theme == (if UsesCustomTheme(old(theme)) && !HasThemeNamed(loaded, old(theme)) then defaultTheme else old(theme))
    {
      customThemes := [];
      if folder.path == [] {
        return;
      }
      if !folder.exists_ {
        return;
      }
      var themeFiles := JsonFiles(folder.files);
      for i := 0 to |themeFiles|
        invariant customThemes == ThemesFrom(folder.path, themeFiles[..i], load)
        invariant theme == old(theme)
        invariant customLanguages == old(customLanguages) && supportedLanguages == old(supportedLanguages)
      {
        assert themeFiles[..i + 1][..i] == themeFiles[..i];
        var baseName := BaseName(folder.path, themeFiles[i]);
        match load(themeFiles[i]) {
          case None =>
          case Some(rec) =>
            match NormaliseTheme(baseName, rec) {
              case Err(_) =>
              case Ok(t) => customThemes := customThemes + [t];
            }
        }
      }
      assert themeFiles[..|themeFiles|] == themeFiles;
      if UsesCustomTheme(theme) && !HasThemeNamed(customThemes, theme) {
        theme := defaultTheme;
      }
      SortByDisplayNameSorted(customThemes, before);
      customThemes := SortByDisplayName(customThemes, before);
    }

    /** `loadCustomLanguages`: every `.json` file of the folder that parses
        and has a name is loaded, in file order. */
    method LoadCustomLanguages(folder: Folder, load: Loader<LanguageRecord>)
      modifies this
      ensures customThemes == old(customThemes) && supportedLanguages == old(supportedLanguages) && theme == old(theme)
      ensures customLanguages == if folder.path == [] || !folder.exists_ then [] else LanguagesFrom(JsonFiles(folder.files), load)
    {
      customLanguages := [];
      if folder.path == [] || !folder.exists_ {
        return;
      }
      var languageFiles := JsonFiles(folder.files);
      for i := 0 to |languageFiles|
        invariant customLanguages == LanguagesFrom(languageFiles[..i], load)
        invariant customThemes == old(customThemes) && supportedLanguages == old(supportedLanguages) && theme == old(theme)
      {
        assert languageFiles[..i + 1][..i] == languageFiles[..i];
        match load(languageFiles[i]) {
          case None =>
          case Some(l) =>
            if HasName(l) {
              customLanguages := customLanguages + [l];
            }
        }
      }
      assert languageFiles[..|languageFiles|] == languageFiles;
    }

    /** The supported languages after `load`: the bundled ones, then the
        names of the custom languages. */
    method SetSupportedLanguages(bundled: seq<string>)
      modifies this
      ensures customThemes == old(customThemes) && customLanguages == old(customLanguages) && theme == old(theme)
      ensures |supportedLanguages| == |bundled| + |customLanguages|
      ensures supportedLanguages[..|bundled|] == bundled
      ensures forall i :: 0 <= i < |customLanguages| ==> supportedLanguages[|bundled| + i] == LanguageName(customLanguages[i])
    {
      var names := [];
      for i := 0 to |customLanguages|
        invariant |names| == i
        invariant forall j :: 0 <= j < i ==> names[j] == LanguageName(customLanguages[j])
      {
        names := names + [LanguageName(customLanguages[i])];
      }
      supportedLanguages := bundled + names;
    }
  }
}
