/**
 * The lexical analyzer (`POST /analizar`): the upload is sanitised and validated in a
 * fixed order, the language is chosen, and the word-frequency part of the per-language
 * analysis counts the kept tokens, sorts the (word, count) pairs and keeps at most ten
 * of them.
 *
 * Tokenizing (natural's WordTokenizer for Spanish, a Latin-letter regex for English, a
 * Cyrillic regex for Russian), encoding detection and the removal of `&...;` entities are
 * not modelled: the analysis starts from the decoded text without entities and from the
 * token list.
 */
module LexicalAnalyzer {
  import opened Wrappers
  import opened Text

  // ---------------------------------------------------------------------------
  // Sanitising
  // ---------------------------------------------------------------------------

  /** JavaScript's `\w`. */
  predicate IsWordChar(c: char)
  {
    'a' <= c <= 'z' || 'A' <= c <= 'Z' || IsDigit(c) || c == '_'
  }

  /** The Cyrillic and Cyrillic Supplement blocks. */
  predicate IsCyrillic(c: char)
  {
    '\U{400}' <= c <= '\U{52F}'
  }

  /** The character whitelist of the sanitiser: word characters, the Spanish accented
      vowels and eñe, whitespace and `. , ! ? / -`; with `keepCyrillic`, Cyrillic
      letters as well. */
  predicate SanitizerKeeps(c: char, keepCyrillic: bool)
  {
    || IsWordChar(c) || IsSpanishLetter(c) || IsJsWhitespace(c) || IsBasicPunctuation(c)
    || (keepCyrillic && IsCyrillic(c))
  }

  /** `ÁÉÍÓÚáéíóúñÑ`. */
  predicate IsSpanishLetter(c: char)
  {
    || c == 'Á' || c == 'É' || c == 'Í' || c == 'Ó' || c == 'Ú'
    || c == 'á' || c == 'é' || c == 'í' || c == 'ó' || c == 'ú' || c == 'ñ' || c == 'Ñ'
  }

  /** `. , ! ? / -`. */
  predicate IsBasicPunctuation(c: char)
  {
    c == '.' || c == ',' || c == '!' || c == '?' || c == '/' || c == '-'
  }

  /** Nothing on the written whitelist is a Cyrillic letter. */
  lemma WhitelistHasNoCyrillic(c: char)
    requires SanitizerKeeps(c, false)
    ensures !IsCyrillic(c)
  {
  }

  /** The text with every character outside the whitelist removed. */
  function KeepWhitelisted(s: string, keepCyrillic: bool): (r: string)
    ensures |r| <= |s|
    ensures forall i :: 0 <= i < |r| ==> SanitizerKeeps(r[i], keepCyrillic) && r[i] in s
  {
    if s == [] then []
    else (if SanitizerKeeps(s[0], keepCyrillic) then [s[0]] else []) + KeepWhitelisted(s[1..], keepCyrillic)
  }

  /** Every whitelisted character is kept as often as it occurs, and no other one. */
  lemma {:induction false} KeepWhitelistedCounts(s: string, keepCyrillic: bool, c: char)
    ensures multiset(KeepWhitelisted(s, keepCyrillic))[c] == if SanitizerKeeps(c, keepCyrillic) then multiset(s)[c] else 0
  {
    if s != [] {
      assert s == [s[0]] + s[1..];
      KeepWhitelistedCounts(s[1..], keepCyrillic, c);
    }
  }

  /** The filter works character by character, so it keeps the kept characters in their
      order: filtering a concatenation concatenates the filtered parts. */
  lemma {:induction false} KeepWhitelistedConcat(a: string, b: string, keepCyrillic: bool)
    ensures KeepWhitelisted(a + b, keepCyrillic) == KeepWhitelisted(a, keepCyrillic) + KeepWhitelisted(b, keepCyrillic)
  {
    if a == [] {
      assert a + b == b;
    } else {
      assert (a + b)[0] == a[0] && (a + b)[1..] == a[1..] + b;
      KeepWhitelistedConcat(a[1..], b, keepCyrillic);
    }
  }

  /** The sanitiser: remove every character outside the whitelist, then trim. As written
      (`keepCyrillic == false`) the whitelist has no Cyrillic letters; the corrected
      sanitiser (`keepCyrillic == true`) also keeps them. */
  function Sanitize(text: string, keepCyrillic: bool): string
  {
    Trim(KeepWhitelisted(text, keepCyrillic))
  }

  /** The sanitised text is empty exactly when every whitelisted character of the upload
      is whitespace, and whatever it keeps is on the whitelist. */
  lemma SanitizeCharacters(text: string, keepCyrillic: bool)
    ensures forall c | c in Sanitize(text, keepCyrillic) :: SanitizerKeeps(c, keepCyrillic)
    ensures Sanitize(text, keepCyrillic) == "" <==>
              forall i :: 0 <= i < |text| && SanitizerKeeps(text[i], keepCyrillic) ==> IsJsWhitespace(text[i])
  {
    var k := KeepWhitelisted(text, keepCyrillic);
    TrimKeepsOnlyCharactersOf(k);
    TrimIsEmptyIffAllWhitespace(k);
    forall i | 0 <= i < |text| && SanitizerKeeps(text[i], keepCyrillic)
      ensures text[i] in k
    {
      KeepWhitelistedCounts(text, keepCyrillic, text[i]);
      assert text[i] in multiset(text);
    }
  }

  /** As written, no Cyrillic letter reaches the analysis, so the Russian tokenizer,
      which only matches runs of Cyrillic letters, never finds a word. */
  lemma AsWrittenSanitizerDropsCyrillic(text: string)
    ensures forall c | c in Sanitize(text, false) :: !IsCyrillic(c)
  {
    var k := KeepWhitelisted(text, false);
    TrimKeepsOnlyCharactersOf(k);
    forall c | c in Trim(k) ensures !IsCyrillic(c) {
      var i :| 0 <= i < |k| && k[i] == c;
      WhitelistHasNoCyrillic(c);
    }
  }

  /** As written, a text made only of Cyrillic letters is dropped except for its
      whitespace, so it reaches the emptiness check as "" and is rejected. */
  lemma {:induction false} AsWrittenCyrillicTextBecomesEmpty(text: string)
    requires forall i :: 0 <= i < |text| ==> IsCyrillic(text[i]) || text[i] == ' '
    ensures Sanitize(text, false) == ""
  {
    OnlySpacesSurvive(text);
    TrimProperties(KeepWhitelisted(text, false));
  }

  lemma {:induction false} OnlySpacesSurvive(text: string)
    requires forall i :: 0 <= i < |text| ==> IsCyrillic(text[i]) || text[i] == ' '
    ensures forall i :: 0 <= i < |KeepWhitelisted(text, false)| ==> KeepWhitelisted(text, false)[i] == ' '
  {
    if text != [] {
      OnlySpacesSurvive(text[1..]);
    }
  }

  /** The upload "привет мир" (Russian for "hello world") is rejected as empty. */
  lemma RussianGreetingIsRejectedAsEmpty(text: string)
    requires text == "привет мир"
    ensures Sanitize(text, false) == ""
  {
    AsWrittenCyrillicTextBecomesEmpty(text);
  }

  /** With Cyrillic on the whitelist, a text made only of Cyrillic letters and spaces,
      with a Cyrillic letter at each end, passes the sanitiser unchanged. */
  lemma {:induction false} SanitizeKeepsCyrillicText(text: string)
    requires forall i :: 0 <= i < |text| ==> IsCyrillic(text[i]) || text[i] == ' '
    requires text != [] ==> text[0] != ' ' && text[|text| - 1] != ' '
    ensures Sanitize(text, true) == text
  {
    forall i | 0 <= i < |text|
      ensures SanitizerKeeps(text[i], true)
    {
    }
    KeepsEverythingAllowed(text, true);
    if text != [] {
      assert IsCyrillic(text[0]) && IsCyrillic(text[|text| - 1]);
    }
    TrimOfTrimmed(text);
  }

  /** The character filter leaves alone a text whose every character is on the
      whitelist in use. */
  lemma {:induction false} KeepsEverythingAllowed(text: string, keepCyrillic: bool)
    requires forall i :: 0 <= i < |text| ==> SanitizerKeeps(text[i], keepCyrillic)
    ensures KeepWhitelisted(text, keepCyrillic) == text
  {
    if text != [] {
      KeepsEverythingAllowed(text[1..], keepCyrillic);
      assert text == [text[0]] + text[1..];
    }
  }

  /** Outside the Cyrillic letters the two whitelists agree. */
  lemma {:induction false} WhitelistsAgreeOutsideCyrillic(text: string)
    requires forall i :: 0 <= i < |text| ==> !IsCyrillic(text[i])
    ensures Sanitize(text, true) == Sanitize(text, false)
  {
    SameFilterOutsideCyrillic(text);
  }

  /** The character-filter step of `WhitelistsAgreeOutsideCyrillic`: on text without
      Cyrillic letters both whitelists keep the same characters. */
  lemma {:induction false} SameFilterOutsideCyrillic(text: string)
    requires forall i :: 0 <= i < |text| ==> !IsCyrillic(text[i])
    ensures KeepWhitelisted(text, true) == KeepWhitelisted(text, false)
  {
    if text != [] {
      SameFilterOutsideCyrillic(text[1..]);
    }
  }

  // ---------------------------------------------------------------------------
  // Request validation
  // ---------------------------------------------------------------------------

  /** Largest accepted upload: 5 MiB. */
  const MaxUploadBytes: nat := 5 * 1024 * 1024

  datatype Language = Spanish | English | Russian

  /** The uploaded file: its original name, its size in bytes, and its text after
      decoding and the removal of `&...;` entities. */
  datatype UploadedFile = UploadedFile(originalName: string, size: nat, text: string)

  /** An error response: HTTP status and the `error` message. */
  datatype Rejection = Rejection(status: nat, error: string)

  /** `req.body.idioma?.toLowerCase() || "es"`: an absent or empty field means "es". */
  function RequestedLanguage(idioma: Option<string>): string
  {
    if idioma.None? || ToLower(idioma.value) == "" then "es" else ToLower(idioma.value)
  }

  /** The language dispatch: the codes and names each analysis accepts. */
  function LanguageOf(idioma: string): Option<Language>
  {
    if idioma == "es" || idioma == "español" then Some(Spanish)
    else if idioma == "en" || idioma == "inglés" || idioma == "ingles" then Some(English)
    else if idioma == "ru" || idioma == "ruso" then Some(Russian)
    else None
  }

  /** The checks of the handler, in the order it makes them. With `keepCyrillic ==
      false` the emptiness check sees the text as the written sanitiser leaves it. */
  function ValidateRequest(file: Option<UploadedFile>, idioma: Option<string>, keepCyrillic: bool): (r: Result<Language, Rejection>)
    ensures r.Ok? ==> && file.Some? && file.value.size <= MaxUploadBytes && Sanitize(file.value.text, keepCyrillic) != ""
                      && LanguageOf(RequestedLanguage(idioma)) == Some(r.value)
    ensures r.Err? ==> r.error.status == 400 || (r.error.status == 413 && file.Some? && file.value.size > MaxUploadBytes)
  {
    if file.None? then Err(Rejection(400, "No se proporcionó archivo"))
    else if !EndsWith(file.value.originalName, ".txt") then Err(Rejection(400, "Solo se permiten archivos .txt"))
    else if file.value.size > MaxUploadBytes then Err(Rejection(413, "Archivo muy grande (máx. 5MB)"))
    else if Sanitize(file.value.text, keepCyrillic) == "" then Err(Rejection(400, "El archivo está vacío"))
    else
      match LanguageOf(RequestedLanguage(idioma))
      case None => Err(Rejection(400, "Idioma no soportado. Use: español, inglés o ruso"))
      case Some(lang) => Ok(lang)
  }

  /** Each rejection happens exactly when every earlier check passed and its own check
      fails, and a request passing all five is analyzed in the requested language, Spanish
      when none is given. */
  lemma ValidationOrder(file: Option<UploadedFile>, idioma: Option<string>, keepCyrillic: bool)
    ensures var r := ValidateRequest(file, idioma, keepCyrillic);
      && (r == Err(Rejection(400, "No se proporcionó archivo")) <==> file.None?)
      && (r == Err(Rejection(400, "Solo se permiten archivos .txt")) <==>
            file.Some? && !EndsWith(file.value.originalName, ".txt"))
      && (r == Err(Rejection(413, "Archivo muy grande (máx. 5MB)")) <==>
            file.Some? && EndsWith(file.value.originalName, ".txt") && file.value.size > MaxUploadBytes)
      && (r == Err(Rejection(400, "El archivo está vacío")) <==>
            file.Some? && EndsWith(file.value.originalName, ".txt") && file.value.size <= MaxUploadBytes
            && Sanitize(file.value.text, keepCyrillic) == "")
      && (r == Err(Rejection(400, "Idioma no soportado. Use: español, inglés o ruso")) <==>
            file.Some? && EndsWith(file.value.originalName, ".txt") && file.value.size <= MaxUploadBytes
            && Sanitize(file.value.text, keepCyrillic) != "" && LanguageOf(RequestedLanguage(idioma)).None?)
      && (r.Ok? <==>
            file.Some? && EndsWith(file.value.originalName, ".txt") && file.value.size <= MaxUploadBytes
            && Sanitize(file.value.text, keepCyrillic) != "" && LanguageOf(RequestedLanguage(idioma)).Some?)
      && (r.Ok? && (idioma.None? || idioma == Some("")) ==> r.value == Spanish)
  {
    if idioma.None? || idioma == Some("") {
      assert RequestedLanguage(idioma) == "es";
    }
  }

  /** Letter case does not matter for the language field: "Español" and "INGLÉS" select
      the same analysis as their lower-case spellings. */
  lemma LanguageIgnoresCase(idioma: string)
    ensures RequestedLanguage(Some(ToLower(idioma))) == RequestedLanguage(Some(idioma))
  {
    ToLowerIsIdempotent(idioma);
  }

  /** As written, an upload of Cyrillic words and spaces that passes the name and size
      checks is rejected as empty, whatever language is requested. */
  lemma AsWrittenHandlerRejectsCyrillicUpload(file: Option<UploadedFile>, idioma: Option<string>)
    requires file.Some? && EndsWith(file.value.originalName, ".txt") && file.value.size <= MaxUploadBytes
    requires forall i :: 0 <= i < |file.value.text| ==> IsCyrillic(file.value.text[i]) || file.value.text[i] == ' '
    ensures ValidateRequest(file, idioma, false) == Err(Rejection(400, "El archivo está vacío"))
  {
    AsWrittenCyrillicTextBecomesEmpty(file.value.text);
  }

  /** The upload "привет мир" with idioma "ru" never reaches the Russian analysis. */
  lemma RussianGreetingUploadIsRejected(file: Option<UploadedFile>, idioma: Option<string>)
    requires file.Some? && EndsWith(file.value.originalName, ".txt") && file.value.size <= MaxUploadBytes
    requires file.value.text == "привет мир" && idioma == Some("ru")
    ensures ValidateRequest(file, idioma, false) == Err(Rejection(400, "El archivo está vacío"))
  {
    RussianGreetingIsRejectedAsEmpty(file.value.text);
  }

  lemma RussianCodeIsLowerCase(idioma: Option<string>)
    requires idioma == Some("ru")
    ensures LanguageOf(RequestedLanguage(idioma)) == Some(Russian)
  {
    assert ToLower(idioma.value) == idioma.value;
  }

  /** With the corrected sanitiser, the same kind of upload holding at least one Cyrillic
      letter is accepted and analysed in Russian when "ru" is requested. */
  lemma CorrectedHandlerAcceptsRussianUpload(file: Option<UploadedFile>, idioma: Option<string>, j: nat)
    requires file.Some? && EndsWith(file.value.originalName, ".txt") && file.value.size <= MaxUploadBytes
    requires forall i :: 0 <= i < |file.value.text| ==> IsCyrillic(file.value.text[i]) || file.value.text[i] == ' '
    requires j < |file.value.text| && IsCyrillic(file.value.text[j])
    requires idioma == Some("ru")
    ensures ValidateRequest(file, idioma, true) == Ok(Russian)
  {
    var text := file.value.text;
    assert SanitizerKeeps(text[j], true) && !IsJsWhitespace(text[j]);
    SanitizeCharacters(text, true);
    RussianCodeIsLowerCase(idioma);
  }

  // ---------------------------------------------------------------------------
  // Which tokens are counted
  // ---------------------------------------------------------------------------

  const SpanishStopwords: seq<string> :=
    ["el", "la", "los", "las", "un", "una", "unos", "unas",
     "de", "del", "al", "a", "en", "por", "para", "con",
     "sin", "sobre", "entre", "que", "como", "pero", "si",
     "no", "ni", "y", "o", "u", "es", "son", "está", "están"]

  const EnglishStopwords: seq<string> :=
    ["the", "a", "an", "and", "or", "but", "in", "on", "at",
     "to", "for", "of", "with", "by", "from", "is", "are",
     "was", "were", "been", "be", "have", "has", "had"]

  /** `[a-z0-9]` under the `i` flag. */
  predicate IsAsciiAlphanumeric(c: char)
  {
    'a' <= c <= 'z' || 'A' <= c <= 'Z' || IsDigit(c)
  }

  /** `[x#]` under the `i` flag. */
  predicate IsXOrHash(c: char)
  {
    c == 'x' || c == 'X' || c == '#'
  }

  predicate PrefixIsXOrHash(p: string, k: nat)
    requires k <= |p|
  {
    forall i :: 0 <= i < k ==> IsXOrHash(p[i])
  }

  predicate SuffixIsAlphanumeric(p: string, k: nat)
    requires k <= |p|
  {
    forall i :: k <= i < |p| ==> IsAsciiAlphanumeric(p[i])
  }

  /** `/^[x#]+[a-z0-9]+$/i`: a non-empty run of x or # followed by a non-empty run of
      ASCII letters and digits. */
  predicate LooksLikeEncodedToken(p: string)
  {
    exists k :: 1 <= k < |p| && PrefixIsXOrHash(p, k) && SuffixIsAlphanumeric(p, k)
  }

  /** The Spanish filter: longer than two characters, not a stopword, not all digits and
      not an x/#-prefixed code. */
  predicate KeptInSpanish(p: string)
  {
    |p| > 2 && p !in SpanishStopwords && !AllDigits(p) && !LooksLikeEncodedToken(p)
  }

  /** The English filter, applied after lower-casing. */
  predicate KeptInEnglish(p: string)
  {
    |p| > 2 && p !in EnglishStopwords
  }

  /** The word under which a token is counted: Spanish tokens come from already
      lower-cased text, the English and Russian ones are lower-cased one by one. */
  function CountedForm(lang: Language, p: string): string
  {
    if lang == Spanish then p else ToLower(p)
  }

  predicate IsCounted(lang: Language, w: string)
  {
    match lang
    case Spanish => KeptInSpanish(w)
    case English => KeptInEnglish(w)
    case Russian => |w| > 2
  }

  /** The words entered into the frequency map, in token order. */
  function CountedWords(lang: Language, palabras: seq<string>): (words: seq<string>)
    ensures |words| <= |palabras|
    ensures forall k :: 0 <= k < |words| ==> IsCounted(lang, words[k])
  {
    if palabras == [] then [] else CountedToken(lang, palabras[0]) + CountedWords(lang, palabras[1..])
  }

  /** What one token adds to the frequency map: its counted form, if that passes the
      language's filter. */
  function CountedToken(lang: Language, p: string): (words: seq<string>)
    ensures |words| <= 1
    ensures words != [] <==> IsCounted(lang, CountedForm(lang, p))
    ensures words != [] ==> words[0] == CountedForm(lang, p)
  {
    var w := CountedForm(lang, p);
    if IsCounted(lang, w) then [w] else []
  }

  /** Filtering preserves token order: the words counted from two runs of tokens are
      those of the first run followed by those of the second. */
  lemma {:induction false} CountedWordsConcat(lang: Language, a: seq<string>, b: seq<string>)
    ensures CountedWords(lang, a + b) == CountedWords(lang, a) + CountedWords(lang, b)
  {
    if a == [] {
      assert a + b == b;
    } else {
      var ab, head := a + b, CountedToken(lang, a[0]);
      assert ab[0] == a[0] && ab[1..] == a[1..] + b;
      calc {
        CountedWords(lang, ab);
        head + CountedWords(lang, a[1..] + b);
        { CountedWordsConcat(lang, a[1..], b); }
        head + (CountedWords(lang, a[1..]) + CountedWords(lang, b));
        (head + CountedWords(lang, a[1..])) + CountedWords(lang, b);
      }
    }
  }

  /** The counted form of every token, in token order. */
  function CountedForms(lang: Language, palabras: seq<string>): (forms: seq<string>)
    ensures |forms| == |palabras|
    ensures forall k :: 0 <= k < |forms| ==> forms[k] == CountedForm(lang, palabras[k])
  {
    if palabras == [] then [] else [CountedForm(lang, palabras[0])] + CountedForms(lang, palabras[1..])
  }

  /** In every language a word is counted as often as it occurs among the counted forms
      of the tokens if it passes that language's filter, and never otherwise. */
  lemma {:induction false} CountsAreFilteredOccurrences(lang: Language, palabras: seq<string>, w: string)
    ensures multiset(CountedWords(lang, palabras))[w] ==
            if IsCounted(lang, w) then multiset(CountedForms(lang, palabras))[w] else 0
  {
    if palabras != [] {
      var f, rest := CountedForm(lang, palabras[0]), palabras[1..];
      var head := if IsCounted(lang, f) then [f] else [];
      assert CountedWords(lang, palabras) == head + CountedWords(lang, rest);
      assert CountedForms(lang, palabras) == [f] + CountedForms(lang, rest);
      assert multiset(CountedWords(lang, palabras)) == multiset(head) + multiset(CountedWords(lang, rest));
      assert multiset(CountedForms(lang, palabras)) == multiset{f} + multiset(CountedForms(lang, rest));
      CountsAreFilteredOccurrences(lang, rest, w);
    }
  }

  /** For Spanish the tokens are counted as they are: each word is counted as often as it
      occurs among the tokens if it passes the filter, and never otherwise. */
  lemma SpanishCountsAreFilteredOccurrences(palabras: seq<string>, w: string)
    ensures multiset(CountedWords(Spanish, palabras))[w] ==
            if KeptInSpanish(w) then multiset(palabras)[w] else 0
  {
    CountsAreFilteredOccurrences(Spanish, palabras, w);
    assert CountedForms(Spanish, palabras) == palabras;
  }

  // ---------------------------------------------------------------------------
  // Counting
  // ---------------------------------------------------------------------------

  /** `frecuencia` maps exactly the words of `ws`, each to its number of occurrences. */
  ghost predicate CountsOf(frecuencia: map<string, nat>, ws: seq<string>)
  {
    && (forall w :: w in frecuencia <==> w in ws)
    && (forall w :: w in frecuencia ==> frecuencia[w] == multiset(ws)[w])
  }

  /** One `forEach` step keeps the map equal to the counts of the words seen so far. */
  lemma CountStep(frecuencia: map<string, nat>, ws: seq<string>, p: string)
    requires CountsOf(frecuencia, ws)
    ensures p in frecuencia ==> CountsOf(frecuencia[p := frecuencia[p] + 1], ws + [p])
    ensures p !in frecuencia ==> CountsOf(frecuencia[p := 1], ws + [p])
  {
    assert multiset(ws + [p]) == multiset(ws) + multiset{p};
    assert forall w :: w in ws + [p] <==> w in ws || w == p;
  }

  /** The `frecuencia` object filled by the `forEach`: `keys` is its key order (first
      occurrence), and every word maps to the number of times it occurs. */
  method CountFrequencies(words: seq<string>) returns (keys: seq<string>, frecuencia: map<string, nat>)
    ensures keys == Distinct(words)
    ensures forall w :: w in frecuencia <==> w in words
    ensures forall w :: w in frecuencia ==> frecuencia[w] == multiset(words)[w]
  {
    keys, frecuencia := [], map[];
    for i := 0 to |words|
      invariant keys == Distinct(words[..i])
      invariant CountsOf(frecuencia, words[..i])
    {
      var p := words[i];
      assert words[..i + 1] == words[..i] + [p];
      DistinctSnoc(words[..i], p);
      CountStep(frecuencia, words[..i], p);
      if p in frecuencia {
        frecuencia := frecuencia[p := frecuencia[p] + 1];
      } else {
        keys := keys + [p];
        frecuencia := frecuencia[p := 1];
      }
    }
    assert words[..|words|] == words;
  }

  // ---------------------------------------------------------------------------
  // The count map as written: a plain object literal
  // ---------------------------------------------------------------------------

  /** A value that `frecuencia[p]` can yield: a count, a string, or the `Object`
      function inherited through `Object.prototype.constructor`. */
  datatype JsValue = JsNumber(n: int) | JsString(s: string) | JsObjectFunction

  /** What `String(Object)` gives. */
  const ObjectFunctionText: string := "function Object() { [native code] }"

  /** `frecuencia[p]` on an object created by `{}`: an own property, else the one
      property of `Object.prototype` whose name is a lower-case word. */
  function ObjectLiteralGet(frecuencia: map<string, JsValue>, p: string): Option<JsValue>
  {
    if p in frecuencia then Some(frecuencia[p])
    else if p == "constructor" then Some(JsObjectFunction)
    else None
  }

  /** `(v || 0) + 1`: falsy values count as zero, a string or a function is
      concatenated with "1". */
  function OrZeroPlusOne(v: Option<JsValue>): JsValue
  {
    match v
    case None => JsNumber(1)
    case Some(JsNumber(n)) => JsNumber(n + 1)
    case Some(JsString(s)) => if s == "" then JsNumber(1) else JsString(s + "1")
    case Some(JsObjectFunction) => JsString(ObjectFunctionText + "1")
  }

  /** The `forEach` over the kept words, as written. */
  function CountAsWritten(words: seq<string>): map<string, JsValue>
  {
    if words == [] then map[]
    else
      var f := CountAsWritten(words[..|words| - 1]);
      var p := words[|words| - 1];
      f[p := OrZeroPlusOne(ObjectLiteralGet(f, p))]
  }

  /** For every word other than "constructor" the object holds the right count. */
  lemma {:induction false} AsWrittenCountsOtherWords(words: seq<string>, w: string)
    requires w != "constructor"
    ensures w in CountAsWritten(words) <==> w in words
    ensures w in CountAsWritten(words) ==> CountAsWritten(words)[w] == JsNumber(multiset(words)[w])
  {
    if words != [] {
      var init := words[..|words| - 1];
      assert words == init + [words[|words| - 1]];
      AsWrittenCountsOtherWords(init, w);
    }
  }

  /** Two occurrences of "constructor" are recorded as a string instead of the count 2. */
  lemma ConstructorIsMiscounted()
    ensures CountAsWritten(["constructor", "constructor"])["constructor"] == JsString(ObjectFunctionText + "11")
    ensures CountAsWritten(["constructor", "constructor"])["constructor"] != JsNumber(2)
  {
    assert ["constructor", "constructor"][..1] == ["constructor"];
    assert ["constructor"][..0] == [];
  }

  /** One (word, count) pair of `Object.entries(frecuencia)`. */
  datatype Entry = Entry(word: string, count: nat)

  /** The entries of the frequency map of `words`, in key order. */
  function FrequencyTable(words: seq<string>): (t: seq<Entry>)
    ensures |t| == |set w | w in words|
    ensures forall k :: 0 <= k < |t| ==> t[k].word in words && t[k].count == multiset(words)[t[k].word] > 0
    ensures forall i, j :: 0 <= i < j < |t| ==> t[i].word != t[j].word
  {
    var keys := Distinct(words);
    DistinctCount(words);
    seq(|keys|, k requires 0 <= k < |keys| => Entry(keys[k], multiset(words)[keys[k]]))
  }

  /** Sum of the counts of a list of entries. */
  function TotalCount(t: seq<Entry>): nat
  {
    if t == [] then 0 else t[0].count + TotalCount(t[1..])
  }

  /** Sum, over a list of keys, of how often each key occurs in `m`. */
  function SumOver(keys: seq<string>, m: multiset<string>): nat
  {
    if keys == [] then 0 else m[keys[0]] + SumOver(keys[1..], m)
  }

  /** One more occurrence of `x` adds one to the sum exactly when `x` is among the keys
      (which are distinct). */
  lemma {:induction false} SumOverAddOne(keys: seq<string>, m: multiset<string>, x: string)
    requires NoDuplicates(keys)
    ensures SumOver(keys, m + multiset{x}) == SumOver(keys, m) + (if x in keys then 1 else 0)
  {
    if keys != [] {
      SumOverAddOne(keys[1..], m, x);
      assert x in keys <==> x == keys[0] || x in keys[1..];
    }
  }

  /** Summing the occurrence counts over the distinct words gives the number of words. */
  lemma {:induction false} SumOverDistinct(words: seq<string>)
    ensures SumOver(Distinct(words), multiset(words)) == |words|
  {
    if words != [] {
      var init, x := words[..|words| - 1], words[|words| - 1];
      assert words == init + [x];
      SumOverDistinct(init);
      DistinctSnoc(init, x);
      SumOverAddOne(Distinct(init), multiset(init), x);
      if x !in init {
        SumOverSnoc(Distinct(init), x, multiset(words));
        SumOverUnaffected(Distinct(init), multiset(init), x);
      }
    }
  }

  lemma {:induction false} SumOverSnoc(keys: seq<string>, x: string, m: multiset<string>)
    ensures SumOver(keys + [x], m) == SumOver(keys, m) + m[x]
  {
    if keys != [] {
      assert (keys + [x])[1..] == keys[1..] + [x];
      SumOverSnoc(keys[1..], x, m);
    }
  }

  lemma {:induction false} SumOverUnaffected(keys: seq<string>, m: multiset<string>, x: string)
    requires x !in keys
    ensures SumOver(keys, m + multiset{x}) == SumOver(keys, m)
  {
    if keys != [] {
      SumOverUnaffected(keys[1..], m, x);
    }
  }

  lemma {:induction false} TotalCountIsSumOver(t: seq<Entry>, keys: seq<string>, m: multiset<string>)
    requires |t| == |keys|
    requires forall k :: 0 <= k < |t| ==> t[k] == Entry(keys[k], m[keys[k]])
    ensures TotalCount(t) == SumOver(keys, m)
  {
    if t != [] {
      TotalCountIsSumOver(t[1..], keys[1..], m);
    }
  }

  /** The counts in the frequency map add up to the number of counted words, and there
      is one entry per distinct word. */
  lemma CountsSumToWordCount(words: seq<string>)
    ensures TotalCount(FrequencyTable(words)) == |words|
    ensures |FrequencyTable(words)| == |set w | w in words|
  {
    TotalCountIsSumOver(FrequencyTable(words), Distinct(words), multiset(words));
    SumOverDistinct(words);
    DistinctCount(words);
  }

  // ---------------------------------------------------------------------------
  // Sorting and the top ten
  // ---------------------------------------------------------------------------

  /** `(a, b) => b[1] - a[1]` (most frequent first) or `(a, b) => a[1] - b[1]`. */
  datatype Direction = MostFrequentFirst | LeastFrequentFirst

  /** The comparator is negative: `a` must come before `b`. */
  predicate GoesBefore(dir: Direction, a: Entry, b: Entry)
  {
    if dir == MostFrequentFirst then a.count > b.count else a.count < b.count
  }

  predicate SortedBy(dir: Direction, t: seq<Entry>)
  {
    forall i, j :: 0 <= i < j < |t| ==> !GoesBefore(dir, t[j], t[i])
  }

  /** The entries of `t` whose count is `c`, in order. */
  function WithCount(t: seq<Entry>, c: nat): seq<Entry>
  {
    if t == [] then [] else (if t[0].count == c then [t[0]] else []) + WithCount(t[1..], c)
  }

  /** Inserts `e` after the entries that must come before it and before all others. */
  function Insert(dir: Direction, e: Entry, t: seq<Entry>): (r: seq<Entry>)
    ensures multiset(r) == multiset{e} + multiset(t)
  {
    if t == [] then [e]
    else if GoesBefore(dir, t[0], e) then
      assert t == [t[0]] + t[1..];
      [t[0]] + Insert(dir, e, t[1..])
    else
      [e] + t
  }

  /** Inserting into a sorted list keeps it sorted. */
  lemma {:induction false} InsertKeepsSorted(dir: Direction, e: Entry, t: seq<Entry>)
    requires SortedBy(dir, t)
    ensures SortedBy(dir, Insert(dir, e, t))
  {
    if t != [] && GoesBefore(dir, t[0], e) {
      var rest := Insert(dir, e, t[1..]);
      InsertKeepsSorted(dir, e, t[1..]);
      forall k | 0 <= k < |rest| ensures !GoesBefore(dir, rest[k], t[0]) {
        assert rest[k] in multiset(rest);
        if rest[k] != e {
          assert rest[k] in multiset(t[1..]);
          var m :| 0 <= m < |t| - 1 && t[1..][m] == rest[k];
          assert t[m + 1] == rest[k];
        }
      }
      SortedCons(dir, t[0], rest);
    }
  }

  /** An entry that none of a sorted list must precede can go in front of it. */
  lemma SortedCons(dir: Direction, h: Entry, rest: seq<Entry>)
    requires SortedBy(dir, rest)
    requires forall k :: 0 <= k < |rest| ==> !GoesBefore(dir, rest[k], h)
    ensures SortedBy(dir, [h] + rest)
  {
    var r := [h] + rest;
    forall i, j | 0 <= i < j < |r| ensures !GoesBefore(dir, r[j], r[i]) {
      assert r[j] == rest[j - 1];
      if i > 0 {
        assert r[i] == rest[i - 1];
      }
    }
  }

  /** Array.prototype.sort with the count comparator (stable since ES2019). */
  function SortByCount(dir: Direction, t: seq<Entry>): (r: seq<Entry>)
    ensures multiset(r) == multiset(t)
    ensures SortedBy(dir, r)
  {
    if t == [] then []
    else
      assert t == [t[0]] + t[1..];
      InsertKeepsSorted(dir, t[0], SortByCount(dir, t[1..]));
      Insert(dir, t[0], SortByCount(dir, t[1..]))
  }

  lemma WithCountCons(x: Entry, t: seq<Entry>, c: nat)
    ensures WithCount([x] + t, c) == (if x.count == c then [x] else []) + WithCount(t, c)
  {
    assert ([x] + t)[1..] == t;
  }

  /** The stability equation for one entry placed ahead of `e`, given it for the rest. */
  lemma InsertStableSkip(dir: Direction, e: Entry, t: seq<Entry>, c: nat)
    requires t != [] && GoesBefore(dir, t[0], e)
    requires WithCount(Insert(dir, e, t[1..]), c) ==
             if e.count == c then [e] + WithCount(t[1..], c) else WithCount(t[1..], c)
    ensures WithCount(Insert(dir, e, t), c) ==
            if e.count == c then [e] + WithCount(t, c) else WithCount(t, c)
  {
    var x, rest := t[0], Insert(dir, e, t[1..]);
    assert Insert(dir, e, t) == [x] + rest;
    assert [x] + t[1..] == t;
    WithCountCons(x, rest, c);
    WithCountCons(x, t[1..], c);
    if e.count == c {
      // `x` goes strictly before `e`, so it cannot share its count
      assert x.count != c;
      assert WithCount(t, c) == WithCount(t[1..], c);
    } else if x.count == c {
      assert WithCount(Insert(dir, e, t), c) == [x] + WithCount(t[1..], c);
    }
  }

  lemma {:induction false} InsertIsStable(dir: Direction, e: Entry, t: seq<Entry>, c: nat)
    ensures WithCount(Insert(dir, e, t), c) == if e.count == c then [e] + WithCount(t, c) else WithCount(t, c)
  {
    if t == [] {
      WithCountCons(e, t, c);
    } else if GoesBefore(dir, t[0], e) {
      InsertIsStable(dir, e, t[1..], c);
      InsertStableSkip(dir, e, t, c);
    } else {
      WithCountCons(e, t, c);
    }
  }

  /** The sort is stable: entries with equal counts keep their relative order, so ties
      are listed in order of first occurrence. */
  lemma {:induction false} SortIsStable(dir: Direction, t: seq<Entry>, c: nat)
    ensures WithCount(SortByCount(dir, t), c) == WithCount(t, c)
  {
    if t != [] {
      SortIsStable(dir, t[1..], c);
      InsertIsStable(dir, t[0], SortByCount(dir, t[1..]), c);
    }
  }

  /** `.slice(0, n)`. */
  function Take<T>(t: seq<T>, n: nat): (r: seq<T>)
    ensures |r| == if |t| < n then |t| else n
    ensures forall k :: 0 <= k < |r| ==> r[k] == t[k]
  {
    if |t| <= n then t else t[..n]
  }

  /** `topPalabras` of a list of counted words. */
  function TopWords(words: seq<string>): seq<Entry>
  {
    Take(SortByCount(MostFrequentFirst, FrequencyTable(words)), 10)
  }

  /** `menosPalabras` of a list of counted words. */
  function LeastWords(words: seq<string>): seq<Entry>
  {
    Take(SortByCount(LeastFrequentFirst, FrequencyTable(words)), 10)
  }

  /** Sorting the table loses no entry: it has one entry per distinct word. */
  lemma SortedTableLength(dir: Direction, words: seq<string>)
    ensures |SortByCount(dir, FrequencyTable(words))| == |set w | w in words|
  {
    var table := FrequencyTable(words);
    var sorted := SortByCount(dir, table);
    CountsSumToWordCount(words);
    assert |multiset(sorted)| == |multiset(table)|;
  }

  /** Every entry of the sorted table is a word of the text with its true count. */
  lemma SortedEntriesAreTrue(dir: Direction, words: seq<string>)
    ensures var sorted := SortByCount(dir, FrequencyTable(words));
      forall k :: 0 <= k < |sorted| ==> sorted[k].word in words && sorted[k].count == multiset(words)[sorted[k].word]
  {
    var table := FrequencyTable(words);
    var sorted := SortByCount(dir, table);
    forall k | 0 <= k < |sorted|
      ensures sorted[k].word in words && sorted[k].count == multiset(words)[sorted[k].word]
    {
      assert sorted[k] in multiset(table);
    }
  }

  /** A list of entries with pairwise different words holds each entry at most once. */
  lemma {:induction false} DistinctWordsOccurOnce(t: seq<Entry>, e: Entry)
    requires forall i, j :: 0 <= i < j < |t| ==> t[i].word != t[j].word
    ensures multiset(t)[e] <= 1
  {
    if t != [] {
      assert t == [t[0]] + t[1..];
      DistinctWordsOccurOnce(t[1..], e);
      if t[0] == e {
        assert e !in t[1..];
      }
    }
  }

  /** In a list whose words are pairwise different, an entry is fixed by its word. */
  lemma SameWordSameEntry(t: seq<Entry>, x: Entry, y: Entry)
    requires forall i, j :: 0 <= i < j < |t| ==> t[i].word != t[j].word
    requires x in t && y in t && x.word == y.word
    ensures x == y
  {
    var a :| 0 <= a < |t| && t[a] == x;
    var b :| 0 <= b < |t| && t[b] == y;
    assert a == b;
  }

  /** Reordering a list whose words are pairwise different keeps them so. */
  lemma PermutationKeepsDistinctWords(t: seq<Entry>, u: seq<Entry>)
    requires multiset(u) == multiset(t)
    requires forall i, j :: 0 <= i < j < |t| ==> t[i].word != t[j].word
    ensures forall i, j :: 0 <= i < j < |u| ==> u[i].word != u[j].word
  {
    forall i, j | 0 <= i < j < |u| ensures u[i].word != u[j].word {
      assert u[i] in multiset(t) && u[j] in multiset(t);
      assert u == u[..j] + [u[j]] + u[j + 1..];
      assert u[i] in u[..j];
      DistinctWordsOccurOnce(t, u[i]);
      if u[i].word == u[j].word {
        SameWordSameEntry(t, u[i], u[j]);
        assert false;
      }
    }
  }

  /** No word has two entries in the sorted table. */
  lemma SortedWordsAreDistinct(dir: Direction, words: seq<string>)
    ensures var sorted := SortByCount(dir, FrequencyTable(words));
      forall i, j :: 0 <= i < j < |sorted| ==> sorted[i].word != sorted[j].word
  {
    var table := FrequencyTable(words);
    PermutationKeepsDistinctWords(table, SortByCount(dir, table));
  }

  /** Every word of the text has an entry in the sorted table. */
  lemma EveryWordIsSorted(dir: Direction, words: seq<string>, w: string) returns (j: nat)
    requires w in words
    ensures j < |SortByCount(dir, FrequencyTable(words))| && SortByCount(dir, FrequencyTable(words))[j].word == w
  {
    var table := FrequencyTable(words);
    var sorted := SortByCount(dir, table);
    var i :| 0 <= i < |Distinct(words)| && Distinct(words)[i] == w;
    var e := table[i];
    assert e.word == w;
    assert e in multiset(table);
    assert e in multiset(sorted);
    j :| 0 <= j < |sorted| && sorted[j] == e;
  }

  /** The first ten entries of the sorted table, as both lists take them: as many as
      there are distinct words up to ten, sorted, each with its true count, and every
      word left out has an entry that the tenth does not have to come after. */
  lemma FirstTenOfSortedTable(dir: Direction, words: seq<string>)
    ensures var sorted := SortByCount(dir, FrequencyTable(words));
      var first := Take(sorted, 10);
      && |first| == (if |set w | w in words| < 10 then |set w | w in words| else 10)
      && SortedBy(dir, first)
      && (forall k :: 0 <= k < |first| ==> first[k].word in words && first[k].count == multiset(words)[first[k].word])
      && (forall i, j :: 0 <= i < j < |first| ==> first[i].word != first[j].word)
      && (forall w :: w in words && (forall k :: 0 <= k < |first| ==> first[k].word != w) ==>
            |first| == 10 && !GoesBefore(dir, Entry(w, multiset(words)[w]), first[9]))
  {
    var sorted := SortByCount(dir, FrequencyTable(words));
    var first := Take(sorted, 10);
    SortedTableLength(dir, words);
    SortedEntriesAreTrue(dir, words);
    SortedWordsAreDistinct(dir, words);
    forall w | w in words && (forall k :: 0 <= k < |first| ==> first[k].word != w)
      ensures |first| == 10 && !GoesBefore(dir, Entry(w, multiset(words)[w]), first[9])
    {
      var j := EveryWordIsSorted(dir, words, w);
      assert j >= |first|;
      assert sorted[9] == first[9];
    }
  }

  /** The top list: at most ten entries, as many as there are distinct words up to ten,
      in non-increasing count order, each with its word's true count, and no word left
      out of it occurs more often than the last word in it. */
  lemma TopWordsAreTheMostFrequent(words: seq<string>)
    ensures var top := TopWords(words);
      && |top| == (if |set w | w in words| < 10 then |set w | w in words| else 10)
      && SortedBy(MostFrequentFirst, top)
      && (forall k :: 0 <= k < |top| ==> top[k].word in words && top[k].count == multiset(words)[top[k].word])
      && (forall i, j :: 0 <= i < j < |top| ==> top[i].word != top[j].word)
      && (forall w :: w in words && (forall k :: 0 <= k < |top| ==> top[k].word != w) ==>
            |top| == 10 && multiset(words)[w] <= top[9].count)
  {
    FirstTenOfSortedTable(MostFrequentFirst, words);
  }

  /** The bottom list: at most ten entries in non-decreasing count order, each with its
      word's true count, and no word left out of it occurs less often than the last word
      in it. */
  lemma LeastWordsAreTheLeastFrequent(words: seq<string>)
    ensures var low := LeastWords(words);
      && |low| == (if |set w | w in words| < 10 then |set w | w in words| else 10)
      && SortedBy(LeastFrequentFirst, low)
      && (forall k :: 0 <= k < |low| ==> low[k].word in words && low[k].count == multiset(words)[low[k].word])
      && (forall i, j :: 0 <= i < j < |low| ==> low[i].word != low[j].word)
      && (forall w :: w in words && (forall k :: 0 <= k < |low| ==> low[k].word != w) ==>
            |low| == 10 && low[9].count <= multiset(words)[w])
  {
    FirstTenOfSortedTable(LeastFrequentFirst, words);
  }

  // ---------------------------------------------------------------------------
  // The per-language frequency report
  // ---------------------------------------------------------------------------

  /** `Object.entries` of a map whose keys, in insertion order, are `keys`. */
  function EntriesOf(keys: seq<string>, frecuencia: map<string, nat>): seq<Entry>
    requires forall k | k in keys :: k in frecuencia
  {
    seq(|keys|, k requires 0 <= k < |keys| => Entry(keys[k], frecuencia[keys[k]]))
  }

  /** The map the counting loop builds has the frequency table as its entries, and as
      many keys as the words have distinct values. */
  lemma CountedMapIsTable(words: seq<string>, keys: seq<string>, frecuencia: map<string, nat>)
    requires keys == Distinct(words)
    requires forall w :: w in frecuencia <==> w in words
    requires forall w :: w in frecuencia ==> frecuencia[w] == multiset(words)[w]
    ensures forall k | k in keys :: k in frecuencia
    ensures EntriesOf(keys, frecuencia) == FrequencyTable(words)
    ensures |frecuencia| == |set w | w in words|
  {
    var entries := EntriesOf(keys, frecuencia);
    forall k | 0 <= k < |keys| ensures entries[k] == FrequencyTable(words)[k] {
    }
    assert frecuencia.Keys == set w | w in words;
  }

  /** The frequency fields of the analysis result. */
  datatype FrequencyReport = FrequencyReport(totalPalabras: nat, palabrasUnicas: nat,
                                             topPalabras: seq<Entry>, menosPalabras: seq<Entry>)

  /** Filter and lower-case the tokens, count them into the map, then sort its entries
      both ways and keep ten of each. */
  method AnalyzeFrequencies(lang: Language, palabras: seq<string>) returns (r: FrequencyReport)
    ensures r.totalPalabras == |palabras|
    ensures r.palabrasUnicas == |set w | w in CountedWords(lang, palabras)|
    ensures r.topPalabras == TopWords(CountedWords(lang, palabras))
    ensures r.menosPalabras == LeastWords(CountedWords(lang, palabras))
  {
    var words := CountedWords(lang, palabras);
    var keys, frecuencia := CountFrequencies(words);
    var entries := EntriesOf(keys, frecuencia);
    CountedMapIsTable(words, keys, frecuencia);
    r := FrequencyReport(|palabras|, |frecuencia|,
                         Take(SortByCount(MostFrequentFirst, entries), 10),
                         Take(SortByCount(LeastFrequentFirst, entries), 10));
  }

  /** The analysis response, reduced to the fields this model computes. */
  datatype AnalysisResponse = AnalysisResponse(idioma: string, language: Language,
                                               frequencies: FrequencyReport, totalCaracteres: nat)

  /** The handler: validation, then the analysis of the given tokens in the chosen
      language. `palabras` are the tokens that language's tokenizer produced. */
  method Analizar(file: Option<UploadedFile>, idioma: Option<string>, keepCyrillic: bool, palabras: seq<string>)
    returns (r: Result<AnalysisResponse, Rejection>)
    ensures ValidateRequest(file, idioma, keepCyrillic).Err? ==> r == Err(ValidateRequest(file, idioma, keepCyrillic).error)
    ensures ValidateRequest(file, idioma, keepCyrillic).Ok? ==>
              && r.Ok?
              && r.value.language == ValidateRequest(file, idioma, keepCyrillic).value
              && r.value.idioma == RequestedLanguage(idioma)
              && r.value.totalCaracteres == |Sanitize(file.value.text, keepCyrillic)|
              && r.value.frequencies.totalPalabras == |palabras|
              && r.value.frequencies.palabrasUnicas == |set w | w in CountedWords(r.value.language, palabras)|
              && r.value.frequencies.topPalabras == TopWords(CountedWords(r.value.language, palabras))
              && r.value.frequencies.menosPalabras == LeastWords(CountedWords(r.value.language, palabras))
  {
    var checked := ValidateRequest(file, idioma, keepCyrillic);
    if checked.Err? {
      return Err(checked.error);
    }
    var report := AnalyzeFrequencies(checked.value, palabras);
    r := Ok(AnalysisResponse(RequestedLanguage(idioma), checked.value, report, |Sanitize(file.value.text, keepCyrillic)|));
  }
}
