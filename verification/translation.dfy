/** The translation context of the front end: the chosen language and where
    it is remembered, loading a language's strings with a fallback to
    Macedonian, and `t(key, variables)`, which looks a key up and fills in
    `{{name}}` placeholders. A bundle is a map from key to text; the
    variables are given in the order `Object.keys` lists them. */
module Translation {
  import opened Common

  /** The language used when none has been chosen. */
  const DEFAULT_LANGUAGE := "mk"
  /** The codes of `availableLanguages`, in order. */
  const AVAILABLE_LANGUAGES: seq<string> := ["mk", "en"]

  /** `pattern` occurs in `s` at position `i`. */
  predicate OccursAt(s: string, pattern: string, i: int) {
    0 <= i && i + |pattern| <= |s| && s[i..i + |pattern|] == pattern
  }

  /** The first position at or after `from` where `pattern` occurs. */
  function IndexFrom(s: string, pattern: string, from: nat): (r: Option<nat>)
    requires from <= |s|
    ensures r.None? ==> forall i | from <= i <= |s| :: !OccursAt(s, pattern, i)
    ensures r.Some? ==> from <= r.value && OccursAt(s, pattern, r.value)
    ensures r.Some? ==> forall i | from <= i < r.value :: !OccursAt(s, pattern, i)
    decreases |s| - from
  {
    if OccursAt(s, pattern, from) then Some(from)
    else if from == |s| then None
    else IndexFrom(s, pattern, from + 1)
  }

  /** `s.indexOf(pattern)`: the first occurrence. */
  function IndexOf(s: string, pattern: string): (r: Option<nat>)
    ensures r.None? <==> forall i | 0 <= i <= |s| :: !OccursAt(s, pattern, i)
    ensures r.Some? ==> OccursAt(s, pattern, r.value)
    ensures r.Some? ==> forall i | 0 <= i < r.value :: !OccursAt(s, pattern, i)
  {
    IndexFrom(s, pattern, 0)
  }

  /** `s.replace(pattern, replacement)` with a string pattern: only the first
      occurrence is replaced. */
  function ReplaceFirst(s: string, pattern: string, replacement: string): (r: string)
    ensures IndexOf(s, pattern).None? ==> r == s
    ensures IndexOf(s, pattern).Some? ==>
              var i := IndexOf(s, pattern).value;
              && |r| == |s| - |pattern| + |replacement|
              && r[..i] == s[..i]
              && r[i..i + |replacement|] == replacement
              && r[i + |replacement|..] == s[i + |pattern|..]
  {
    match IndexOf(s, pattern)
    case None => s
    case Some(i) =>
      var r := s[..i] + replacement + s[i + |pattern|..];
      assert r[..i] == s[..i];
      assert r[i..i + |replacement|] == replacement;
      assert r[i + |replacement|..] == s[i + |pattern|..];
      r
  }

  /** When the pattern first occurs right after `before`, that occurrence is
      the one replaced and the rest of the text is kept. */
  lemma ReplaceFirstAfterPrefix(before: string, pattern: string, after: string, replacement: string)
    requires forall i | 0 <= i < |before| :: !OccursAt(before + pattern + after, pattern, i)
    ensures ReplaceFirst(before + pattern + after, pattern, replacement) == before + replacement + after
  {
    var s := before + pattern + after;
    assert OccursAt(s, pattern, |before|);
    var i := IndexOf(s, pattern).value;
    assert i == |before|;
    var r := ReplaceFirst(s, pattern, replacement);
    assert r == r[..i] + r[i..i + |replacement|] + r[i + |replacement|..];
    assert s[..i] == before;
    assert s[i + |pattern|..] == after;
  }

  /** `{{name}}`. */
  function Placeholder(name: string): (p: string)
    ensures |p| == |name| + 4
  {
    "{{" + name + "}}"
  }

  /** The variables are filled in one after the other, each replacing the
      first occurrence of its placeholder in the text produced so far. */
  function Substitute(text: string, variables: seq<(string, string)>): (r: string)
    ensures variables == [] ==> r == text
    ensures |variables| == 1 ==> r == ReplaceFirst(text, Placeholder(variables[0].0), variables[0].1)
    decreases |variables|
  {
    if variables == [] then text
    else Substitute(ReplaceFirst(text, Placeholder(variables[0].0), variables[0].1), variables[1..])
  }

  /** An empty string is falsy, like a missing key. */
  predicate HasText(translations: map<string, string>, key: string) {
    key in translations && translations[key] != ""
  }

  /** `t(key, variables)`: a key with no (or an empty) text comes back as the
      key itself, untouched by the variables; otherwise its text with the
      placeholders filled in. */
  function T(translations: map<string, string>, key: string, variables: seq<(string, string)>): (r: string)
    ensures !HasText(translations, key) ==> r == key
    ensures HasText(translations, key) && variables == [] ==> r == translations[key]
  {
    if !HasText(translations, key) then key
    else Substitute(translations[key], variables)
  }

  /** With one variable whose placeholder occurs in the text, its first
      occurrence is replaced by the value and the rest of the text is kept. */
  lemma OneVariableFilled(translations: map<string, string>, key: string, name: string, value: string,
                          before: string, after: string)
    requires key in translations && translations[key] == before + Placeholder(name) + after
    requires forall i | 0 <= i < |before| :: !OccursAt(translations[key], Placeholder(name), i)
    ensures T(translations, key, [(name, value)]) == before + value + after
  {
    ReplaceFirstAfterPrefix(before, Placeholder(name), after, value);
  }

  /** A placeholder repeated in the text is filled in only once. */
  lemma RepeatedPlaceholderFilledOnce(name: string, value: string, middle: string)
    ensures Substitute(Placeholder(name) + middle + Placeholder(name), [(name, value)])
            == value + middle + Placeholder(name)
  {
    ReplaceFirstAfterPrefix("", Placeholder(name), middle + Placeholder(name), value);
    assert "" + Placeholder(name) + (middle + Placeholder(name)) == Placeholder(name) + middle + Placeholder(name);
  }

  /** Variables whose placeholders are not in the text change nothing: the
      text's own placeholders for other names are left as they are. */
  lemma {:induction false} UnusedVariablesIgnored(text: string, variables: seq<(string, string)>)
    requires forall k | 0 <= k < |variables| :: IndexOf(text, Placeholder(variables[k].0)).None?
    ensures Substitute(text, variables) == text
    decreases |variables|
  {
    if variables != [] {
      assert ReplaceFirst(text, Placeholder(variables[0].0), variables[0].1) == text;
      assert forall k | 0 <= k < |variables[1..]| :: variables[1..][k] == variables[k + 1];
      UnusedVariablesIgnored(text, variables[1..]);
    }
  }

  /** A name with no brace in it, as variable names are. */
  predicate BraceFree(name: string) {
    forall k | 0 <= k < |name| :: name[k] != '{' && name[k] != '}'
  }

  /** `pattern` occurs somewhere in `s`. */
  predicate Contains(s: string, pattern: string) {
    exists i | 0 <= i <= |s| :: OccursAt(s, pattern, i)
  }

  /** No `{{` starts inside a placeholder after its first character. */
  lemma NoOpeningInside(name: string, k: int)
    requires BraceFree(name) && 1 <= k < |name| + 4
    ensures Placeholder(name)[k] != '{' || (k + 1 < |name| + 4 && Placeholder(name)[k + 1] != '{')
  {
    var p := Placeholder(name);
    if k == 1 {
      assert p[2] == if |name| > 0 then name[0] else '}';
    } else if k < |name| + 2 {
      assert p[k] == name[k - 2];
    } else {
      assert p[k] == '}';
    }
  }

  /** Two placeholders for different brace-free names never start at the
      same position. */
  lemma DifferentNamesDifferentStarts(s: string, a: string, b: string, i: int)
    requires BraceFree(a) && BraceFree(b) && a != b
    requires OccursAt(s, Placeholder(a), i)
    ensures !OccursAt(s, Placeholder(b), i)
  {
    var pa, pb := Placeholder(a), Placeholder(b);
    if i + |pb| <= |s| {
      var at := s[i..i + |pb|];
      if |a| < |b| {
        assert s[i + 2 + |a|] == pa[2 + |a|] == '}';
        assert at[2 + |a|] != pb[2 + |a|] == b[|a|];
      } else if |b| < |a| {
        assert pb[2 + |b|] == '}';
        assert at[2 + |b|] == pa[2 + |b|] == a[|b|];
      } else {
        var d :| 0 <= d < |a| && a[d] != b[d];
        assert at[2 + d] == pa[2 + d] == a[d];
        assert pb[2 + d] == b[d];
      }
    }
  }

  /** No placeholder starts strictly inside a placeholder with a brace-free
      name. */
  lemma NoPlaceholderInside(s: string, a: string, b: string, i: int, j: int)
    requires BraceFree(a) && OccursAt(s, Placeholder(a), i) && i < j < i + |a| + 4
    ensures !OccursAt(s, Placeholder(b), j)
  {
    var k := j - i;
    var pb := Placeholder(b);
    NoOpeningInside(a, k);
    assert s[j] == Placeholder(a)[k];
    if k + 1 < |a| + 4 {
      assert s[j + 1] == Placeholder(a)[k + 1];
    }
    if j + |pb| <= |s| {
      assert pb[0] == '{' && pb[1] == '{';
      assert s[j..j + |pb|][0] == s[j] && s[j..j + |pb|][1] == s[j + 1];
    }
  }

  /** A placeholder starting after another, whose name is brace-free,
      starts after its end: placeholders do not overlap. */
  lemma PlaceholdersApart(s: string, a: string, b: string, i: int, j: int)
    requires BraceFree(a) && i < j
    requires OccursAt(s, Placeholder(a), i) && OccursAt(s, Placeholder(b), j)
    ensures i + |a| + 4 <= j
  {
    if j < i + |a| + 4 {
      NoPlaceholderInside(s, a, b, i, j);
    }
  }

  /** Replacing the first `{{n}}` keeps every `{{c}}` with a different
      brace-free name, shifted when it came after the replaced one. */
  lemma PlaceholderSurvivesReplace(s: string, n: string, v: string, c: string, j: int)
    requires BraceFree(n) && BraceFree(c) && n != c
    requires OccursAt(s, Placeholder(c), j)
    ensures Contains(ReplaceFirst(s, Placeholder(n), v), Placeholder(c))
  {
    var r := ReplaceFirst(s, Placeholder(n), v);
    var pc := Placeholder(c);
    match IndexOf(s, Placeholder(n))
    case None =>
      assert OccursAt(r, pc, j);
    case Some(i) =>
      DifferentNamesDifferentStarts(s, n, c, i);
      if j < i {
        PlaceholdersApart(s, c, n, j, i);
        assert r[j..j + |pc|] == r[..i][j..j + |pc|] == s[..i][j..j + |pc|] == s[j..j + |pc|];
        assert OccursAt(r, pc, j);
      } else {
        PlaceholdersApart(s, n, c, i, j);
        var shifted := j - |n| - 4 + |v|;
        var tail := s[i + |n| + 4..];
        assert r[i + |v|..] == tail;
        assert tail[j - i - |n| - 4..j - i - |n| - 4 + |pc|] == s[j..j + |pc|];
        assert r[shifted..shifted + |pc|] == s[j..j + |pc|];
        assert OccursAt(r, pc, shifted);
      }
  }

  /** A placeholder for a name that is not among the variables is still in
      the text after every variable has been filled in (names without
      braces, as `Object.keys` of a plain object gives them). */
  lemma {:induction false} UnknownPlaceholderKept(text: string, variables: seq<(string, string)>, c: string)
    requires BraceFree(c) && Contains(text, Placeholder(c))
    requires forall k | 0 <= k < |variables| :: BraceFree(variables[k].0) && variables[k].0 != c
    ensures Contains(Substitute(text, variables), Placeholder(c))
    decreases |variables|
  {
    if variables != [] {
      var j :| OccursAt(text, Placeholder(c), j);
      PlaceholderSurvivesReplace(text, variables[0].0, variables[0].1, c, j);
      assert forall k | 0 <= k < |variables[1..]| :: variables[1..][k] == variables[k + 1];
      UnknownPlaceholderKept(ReplaceFirst(text, Placeholder(variables[0].0), variables[0].1), variables[1..], c);
    }
  }

  /** The bundle the load effect installs for `language`: its own bundle,
      else the Macedonian one, else nothing. */
  function LoadTranslations(bundles: map<string, map<string, string>>, language: string): (r: map<string, string>)
    ensures language in bundles ==> r == bundles[language]
    ensures language !in bundles && DEFAULT_LANGUAGE in bundles ==> r == bundles[DEFAULT_LANGUAGE]
    ensures language !in bundles && DEFAULT_LANGUAGE !in bundles ==> r == map[]
  {
    if language in bundles then bundles[language]
    else if DEFAULT_LANGUAGE in bundles then bundles[DEFAULT_LANGUAGE]
    else map[]
  }

  /** A language without a bundle of its own reads exactly the Macedonian
      strings, so every key looks up as it would after switching to
      Macedonian. */
  lemma UnknownLanguageFallsBack(bundles: map<string, map<string, string>>, language: string, key: string)
    requires language !in bundles
    ensures LoadTranslations(bundles, language) == LoadTranslations(bundles, DEFAULT_LANGUAGE)
    ensures T(LoadTranslations(bundles, language), key, []) == T(LoadTranslations(bundles, DEFAULT_LANGUAGE), key, [])
  {
  }

  /** The language and the remembered preference. */
  datatype LanguageState = LanguageState(language: string, preferred: Option<string>)

  /** The start-up effect: a remembered non-empty preference is used;
      otherwise Macedonian is chosen and remembered. */
  function InitialLanguage(preferred: Option<string>): (r: LanguageState)
    ensures preferred.Some? && preferred.value != "" ==> r == LanguageState(preferred.value, preferred)
    ensures !(preferred.Some? && preferred.value != "") ==> r == LanguageState(DEFAULT_LANGUAGE, Some(DEFAULT_LANGUAGE))
    ensures r.preferred.Some? && r.preferred.value == r.language
  {
    if preferred.Some? && preferred.value != "" then LanguageState(preferred.value, preferred)
    else LanguageState(DEFAULT_LANGUAGE, Some(DEFAULT_LANGUAGE))
  }

  /** `switchLanguage(lang)`: the language changes and is remembered, so
      that a reload starts in the same state (for any name but the empty
      one, which the start-up effect does not take as a preference). */
  function SwitchLanguage(st: LanguageState, lang: string): (r: LanguageState)
    ensures r.language == lang && r.preferred == Some(lang)
    ensures lang != "" <==> InitialLanguage(r.preferred) == r
  {
    LanguageState(lang, Some(lang))
  }

  /** A non-empty language chosen with `switchLanguage` survives a reload. */
  lemma SwitchSurvivesReload(st: LanguageState, lang: string)
    requires lang != ""
    ensures InitialLanguage(SwitchLanguage(st, lang).preferred).language == lang
  {
  }

  /** Every offered language is non-empty, so choosing it survives a reload. */
  lemma AvailableLanguagesSurviveReload(st: LanguageState, i: int)
    requires 0 <= i < |AVAILABLE_LANGUAGES|
    ensures InitialLanguage(SwitchLanguage(st, AVAILABLE_LANGUAGES[i]).preferred).language == AVAILABLE_LANGUAGES[i]
  {
    SwitchSurvivesReload(st, AVAILABLE_LANGUAGES[i]);
  }
}
