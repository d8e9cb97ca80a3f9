# Face login, attendance and lexical analysis — a Dafny model

The system is an Express server (`server.js`) and a browser client (`public/script.js`).
Together they do five things:

- register users with a face photo and a decorative filter;
- log them in by face;
- record entries, exits and failed attempts from a recognition camera;
- analyse the word frequencies of uploaded text files;
- send an analysis report by e-mail or WhatsApp.

This project models the decision logic of that core and proves what it guarantees.

| file | module | what it models |
|---|---|---|
| `wrappers.dfy` | `Wrappers` | `Option` and `Result` |
| `text.dfy` | `Text` | the JavaScript string operations the core relies on: truthiness of a field, `toLowerCase`, `replace(/\D/g, "")`, `trim`, `split`/`join`, first-occurrence key order |
| `face_login.dfy` | `FaceLogin` | `POST /api/login-face`: the nearest-descriptor scan and the 0.85 acceptance threshold |
| `overlay.dfy` | `Overlay` | the registration photo filter: name to overlay file, glasses and animal-mask placement from landmarks |
| `registration.dfy` | `Registration` | full name, login name and WhatsApp destination number |
| `lexical.dfy` | `LexicalAnalyzer` | `POST /analizar`: request checks, sanitising, token filters, frequency counting, top/least-ten sorting |
| `report.dfy` | `ReportDelivery` | `POST /enviar-reporte`: request checks, the order of e-mail and WhatsApp delivery, the response |
| `recognition.dfy` | `Recognition` | the client's recognition session: model and descriptor loading, camera start/stop, the per-second recognition tick, the actions it sends |

The browser client keeps global mutable state, so it is modelled as the class
`Recognition.RecognitionSession`. Its methods update its fields. Its interval timers are
an explicit set of running timer ids, so a leaked interval can be stated and proved.
The server handlers compute a response from a request and are modelled as functions.
The two server loops are methods, each proved equal to a specification function:
`FaceLogin.FindBestMatch` is the nearest-descriptor scan, and
`LexicalAnalyzer.CountFrequencies` is the frequency map.

Three facts about the code shape the model:

- The login scan starts from a best distance of 1.0 (`server.js:513`) and then tests
  `< 0.85`. `FaceLogin.CeilingAtThresholdIsEquivalent` proves that a scan starting at
  0.85 picks the same row and makes the same decision.
- Re-registering a face never deactivates an earlier face record. The code only inserts
  new rows with `activo = 1` (`server.js:278-289`).
- The sanitiser of `/analizar` removes every Cyrillic character (`server.js:773`), so the
  Russian analysis can never see a Russian word. `LexicalAnalyzer.Sanitize`,
  `ValidateRequest` and `Analizar` take a flag `keepCyrillic`: `false` is the handler as
  written, `true` the corrected one. Both are proved, and the case is recorded under
  Findings.

## Model

| member | source | states |
|---|---|---|
| Text.LowerChar | server.js:125 | an upper-case letter (Latin, Latin-1 or Cyrillic) maps to a different, non-upper-case character; every other character is unchanged |
| Text.ToLower | server.js:125 | each character is lower-cased on its own, so the result has the same length and `r[i] == LowerChar(s[i])` |
| Text.ToLowerIsIdempotent | server.js:158 | lower-casing an already lower-cased string changes nothing, and the result of `ToLower` is lower-case |
| Text.ToLowerConcat | server.js:125 | lower-casing distributes over concatenation |
| Text.Digits | server.js:732 | `replace(/\D/g, "")` keeps only digits and never lengthens the text |
| Text.DigitsOfDigitString | server.js:732 | a string made only of digits is left unchanged |
| Text.DigitsIsIdempotent | server.js:732 | removing non-digits twice is the same as once |
| Text.DigitsConcat | server.js:732 | removing non-digits distributes over concatenation |
| Text.TrimStart | server.js:774 | the result is a suffix of the input, it does not start with JavaScript whitespace, and every dropped character is whitespace |
| Text.TrimEnd | server.js:774 | the result is a prefix, it does not end with whitespace, and every dropped character is whitespace |
| Text.TrimProperties | server.js:774 | `trim` returns a slice with no whitespace at either end, and it is empty exactly when the input is all whitespace |
| Text.TrimIsSlice | server.js:774 | the trimmed text is a contiguous slice of the input |
| Text.TrimKeepsOnlyCharactersOf | server.js:774 | trimming never introduces a character that was not in the input |
| Text.TrimEndsAreNotWhitespace | server.js:774 | a non-empty trimmed text neither starts nor ends with whitespace |
| Text.TrimIsEmptyIffAllWhitespace | server.js:774 | the trimmed text is empty exactly when every character of the input is whitespace |
| Text.TrimStartKeepsNonWhitespace | server.js:774 | what remains after dropping leading whitespace starts with a non-whitespace character |
| Text.TrimOfTrimmed | server.js:774 | a text with no whitespace at either end is left unchanged by trimming |
| Text.Trim | server.js:774 | `trim`: both ends stripped of JavaScript whitespace; `TrimProperties` and the lemmas above characterise it |
| Text.IndexOf | server.js:1285 | the index of the first occurrence of a character that occurs in the string |
| Text.Split | server.js:1285 | `split` with a one-character separator always yields at least one part |
| Text.SplitHead | server.js:1285 | the first part of a split contains no separator |
| Text.SplitJoin | server.js:124 | joining parts that contain no separator and splitting again gives back the parts |
| Text.EndsWith | server.js:754 | `endsWith`: the string ends with the given suffix; `ValidationOrder` uses it for the ".txt" check |
| Text.Join | server.js:124 | `join` with a one-character separator; `SplitJoin` proves that splitting undoes it for separator-free parts |
| Text.IndexOfAfterPrefix | server.js:124 | the first separator in prefix + separator + rest is found right after a prefix that holds no separator |
| Text.Distinct | server.js:923-926 | the keys of an object filled in word order: no duplicates and exactly the elements of the input |
| Text.DistinctSnoc | server.js:923-926 | appending a word adds it as a new last key exactly when it was not seen before |
| Text.NoDuplicatesCardinality | server.js:937 | a duplicate-free sequence has as many elements as its set |
| Text.DistinctCount | server.js:937 | the number of keys is the number of different words |
| FaceLogin.Scan | server.js:512-526 | the loop as a fold: a well-formed row replaces the running best only when strictly closer; `ScanFindsEarliestNearest` states what it computes |
| FaceLogin.ScanFindsEarliestNearest | server.js:512-526 | the scan returns the first well-formed row with the smallest distance below the starting ceiling, and no row when there is none; rows whose distance fails are skipped |
| FaceLogin.EarliestNearestIsUnique | server.js:512-526 | that description determines the result |
| FaceLogin.AcceptedIffSomeRowBelowThreshold | server.js:512-530 | the login is accepted exactly when some well-formed row is closer than 0.85 |
| FaceLogin.CeilingAtThresholdIsEquivalent | server.js:512-530 | starting from 1.0 and then testing `< 0.85` accepts the same requests, and picks the same row, as starting from 0.85 |
| FaceLogin.FindBestMatch | server.js:512-526 | the loop computes the scan, and so the earliest nearest row |
| FaceLogin.LoginFace | server.js:486-567 | 400 without an image or, when detection runs, without a face; 500 when loading or detection throws (the outer `catch`) or on a query error; otherwise 200 exactly when some row is below 0.85, with the nearest user, every earlier row strictly farther; 401 when none is; each outcome carries its HTTP status |
| FaceLogin.HttpStatus | server.js:486-567 | the status each outcome is sent with; `LoginFace` states which requests get which status |
| Overlay.SelectedFilter | server.js:158 | an absent or empty `filtro` selects "ninguno"; a sent name is lower-cased character by character, keeping its length; the name is lower-case |
| Overlay.OverlayFile | server.js:162-170 | an overlay file exists exactly for perro, gato, lentes and mapache, and it is the name plus ".png" |
| Overlay.GlassesPlacement | server.js:185-195 | the glasses are 2.4 eye spans wide and keep their aspect ratio; they are centred on the eye-corner midpoint, with the eye line 1/1.9 of their height below the top |
| Overlay.AnimalPlacement | server.js:197-218 | the mask is 2.4 eye spans by 2.2 face heights, centred horizontally between the eye corners, with its top 0.84 face heights above the left eye corner |
| Overlay.GlassesCoverEyeCorners | server.js:185-195 | the glasses reach past both eye corners and straddle the eye line |
| Overlay.AnimalMaskCoversFace | server.js:197-218 | with the chin below the eye, the mask spans from above the eye to below the chin and past both eye corners |
| Overlay.PhotoEffectCases | server.js:158-236 | contrast and brightness exactly when no overlay exists for the name; glasses for "lentes"; a mask for the other three names when the file and the landmarks exist; the origin composite is unreachable |
| Overlay.ChoosePhotoEffect | server.js:158-236 | the branch the photo handler takes; `PhotoEffectCases` states every case |
| Overlay.NoFilterIsNinguno | server.js:158-160 | an absent or empty filter field selects "ninguno", which has no overlay |
| Registration.PresentParts | server.js:124 | `filter(Boolean)` keeps only sent, non-empty fields, and no more parts than fields |
| Registration.PresentPartsCounts | server.js:124 | every sent, non-empty field is kept exactly as often as it occurs among the fields |
| Registration.PresentPartsConcat | server.js:124 | the filter keeps field order: filtering a concatenation concatenates the filtered parts |
| Registration.FullName | server.js:124 | the present parts joined by spaces; `FullNameSplitsIntoParts` proves the split gives them back |
| Registration.TemplateText | server.js:125 | a missing field prints as "undefined" inside a template literal; `UsernameSplitsIntoNames` uses it |
| Registration.FullNameSplitsIntoParts | server.js:124 | the full name is "" exactly when no part was sent; otherwise, when parts contain no space, splitting it at spaces gives back the sent parts |
| Registration.Username | server.js:125 | the login name is lower-case |
| Registration.DotSurvivesLowerCase | server.js:125 | lower-casing creates and removes no dot |
| Registration.UsernameSplitsIntoNames | server.js:125 | when neither name contains a dot, the login name splits at its dot into the two lower-cased names |
| Registration.WhatsAppNumber | server.js:729-739 | a number exists exactly when a phone field was sent; it is "+502" followed only by digits |
| Registration.WhatsAppNumberIgnoresSeparators | server.js:732 | non-digit separators do not change the number, and neither does sending only the digits |
| Registration.WhatsAppNumberKeepsDigits | server.js:732 | the part after the country code is exactly the digits of the field, in order |
| LexicalAnalyzer.KeepWhitelisted | server.js:773 | the filtered text keeps only whitelisted characters of the input and is never longer |
| LexicalAnalyzer.SanitizerKeeps | server.js:773 | the character class: word characters, the Spanish accented letters, whitespace and `. , ! ? / -`, plus Cyrillic only in the corrected sanitiser |
| LexicalAnalyzer.KeepWhitelistedCounts | server.js:773 | every whitelisted character is kept exactly as often as it occurs, and no other character is kept |
| LexicalAnalyzer.KeepWhitelistedConcat | server.js:773 | the filter keeps character order: filtering a concatenation concatenates the filtered parts |
| LexicalAnalyzer.Sanitize | server.js:771-775 | the filter then `trim`; `SanitizeCharacters` states what it keeps |
| LexicalAnalyzer.SanitizeCharacters | server.js:771-780 | the sanitised text holds only whitelisted characters, and it is empty exactly when every whitelisted character of the upload is whitespace |
| LexicalAnalyzer.WhitelistHasNoCyrillic | server.js:773 | no character the whitelist keeps is Cyrillic |
| LexicalAnalyzer.AsWrittenSanitizerDropsCyrillic | server.js:771-775 | the sanitised text as written contains no Cyrillic character |
| LexicalAnalyzer.AsWrittenCyrillicTextBecomesEmpty | server.js:771-780 | a text of only Cyrillic letters and spaces sanitises to "", so it is rejected as empty |
| LexicalAnalyzer.OnlySpacesSurvive | server.js:773 | of Cyrillic letters and whitespace, the whitelist keeps only the whitespace |
| LexicalAnalyzer.RussianGreetingIsRejectedAsEmpty | server.js:771-780 | for the text "привет мир", the sanitiser as written returns "" |
| LexicalAnalyzer.SanitizeKeepsCyrillicText | server.js:771-775 | with Cyrillic kept, a text of only Cyrillic letters and spaces, with a Cyrillic letter at each end, is unchanged |
| LexicalAnalyzer.KeepsEverythingAllowed | server.js:773 | for either whitelist, the filter returns unchanged a text whose every character is on that whitelist |
| LexicalAnalyzer.WhitelistsAgreeOutsideCyrillic | server.js:771-775 | on text without Cyrillic, the corrected sanitiser equals the one as written |
| LexicalAnalyzer.SameFilterOutsideCyrillic | server.js:773 | on text without Cyrillic, both whitelists' character filters return the same text |
| LexicalAnalyzer.ValidationOrder | server.js:746-795 | for either sanitiser, each rejection (no file, not .txt, over 5 MB, empty after sanitising, unsupported language) happens exactly when the earlier checks pass and its own fails; a request with no language is Spanish |
| LexicalAnalyzer.ValidateRequest | server.js:746-795 | an accepted request has a file within 5 MB, non-empty sanitised text and the language its field names; a rejection is a 400, or a 413 for a file over 5 MB |
| LexicalAnalyzer.RequestedLanguage | server.js:746 | `idioma?.toLowerCase() \|\| "es"`; `LanguageIgnoresCase` proves the field is case-insensitive |
| LexicalAnalyzer.LanguageOf | server.js:787-795 | the accepted codes and names of each language; `ValidationOrder` states the dispatch |
| LexicalAnalyzer.AsWrittenHandlerRejectsCyrillicUpload | server.js:771-780 | as written, a valid .txt upload of Cyrillic words and spaces is rejected with 400 "El archivo está vacío", whatever the language |
| LexicalAnalyzer.RussianGreetingUploadIsRejected | server.js:744-795 | as written, the upload "привет мир" with idioma "ru" is rejected as empty |
| LexicalAnalyzer.CorrectedHandlerAcceptsRussianUpload | server.js:744-795 | with the corrected sanitiser, such an upload holding a Cyrillic letter is accepted and analysed in Russian for idioma "ru" |
| LexicalAnalyzer.LanguageIgnoresCase | server.js:746 | the language field is case-insensitive |
| LexicalAnalyzer.CountedWords | server.js:917-922 | only words that pass the language's filter are counted, and no more than there are tokens |
| LexicalAnalyzer.CountedToken | server.js:917-922 | one token adds its counted form exactly when that form passes the language's filter, and nothing otherwise |
| LexicalAnalyzer.CountedWordsConcat | server.js:917-922 | the filter keeps token order: the words counted from two runs of tokens are the first run's followed by the second's |
| LexicalAnalyzer.KeptInSpanish | server.js:917-922 | the Spanish filter: longer than two, not a stopword, not all digits, not an x/# code; `CountsAreFilteredOccurrences` uses it |
| LexicalAnalyzer.LooksLikeEncodedToken | server.js:921 | `/^[x#]+[a-z0-9]+$/i`: a non-empty run of x or # followed by a non-empty run of ASCII letters and digits |
| LexicalAnalyzer.KeptInEnglish | server.js:963-969 | the English filter on lower-cased tokens: longer than two and not a stopword |
| LexicalAnalyzer.CountedForm | server.js:966-968 | Spanish tokens are counted as they are, English and Russian ones lower-cased |
| LexicalAnalyzer.IsCounted | server.js:1005-1008 | the filter of each language, Russian keeping lower-cased words longer than two |
| LexicalAnalyzer.CountedForms | server.js:966-968 | the counted form of every token, in token order |
| LexicalAnalyzer.CountsAreFilteredOccurrences | server.js:917-1010 | in Spanish, English and Russian, a word is counted as often as its counted form occurs among the tokens when it passes the filter, and never otherwise |
| LexicalAnalyzer.SpanishCountsAreFilteredOccurrences | server.js:917-926 | in Spanish, a word is counted as often as it occurs when it passes the filter, and never otherwise |
| LexicalAnalyzer.CountStep | server.js:924-926 | one `(x || 0) + 1` step keeps the map an exact occurrence count |
| LexicalAnalyzer.CountFrequencies | server.js:923-926 | the map's keys are exactly the words, in first-occurrence order, and each maps to its number of occurrences |
| LexicalAnalyzer.AsWrittenCountsOtherWords | server.js:923-926 | with a plain object literal, every word except "constructor" gets its exact number count |
| LexicalAnalyzer.CountAsWritten | server.js:923-926 | the `forEach` over a plain object literal; `AsWrittenCountsOtherWords` and `ConstructorIsMiscounted` state what it gives |
| LexicalAnalyzer.ObjectLiteralGet | server.js:923-925 | `frecuencia[p]` on an object made by `{}`: its own value, else the inherited `constructor` function for that one word, else undefined |
| LexicalAnalyzer.OrZeroPlusOne | server.js:925 | `(v \|\| 0) + 1`: a missing or falsy value becomes 1, a number is incremented, a string or a function gets "1" appended |
| LexicalAnalyzer.ConstructorIsMiscounted | server.js:923-926 | "constructor" twice yields the string "function Object() { [native code] }11", not 2 |
| LexicalAnalyzer.FrequencyTable | server.js:928 | `Object.entries`: one entry per distinct word, no word twice, each a word of the list with its true, positive count |
| LexicalAnalyzer.SumOverAddOne | server.js:924-926 | adding one occurrence raises the sum of counts by one |
| LexicalAnalyzer.SumOverDistinct | server.js:924-926 | over its keys, the counts of a word list sum to its length |
| LexicalAnalyzer.SumOverSnoc | server.js:924-926 | the sum over keys extends by the count of a new last key |
| LexicalAnalyzer.SumOverUnaffected | server.js:924-926 | updating a word outside the keys does not change their sum |
| LexicalAnalyzer.TotalCountIsSumOver | server.js:928 | the entries' total is the sum of the map over its keys |
| LexicalAnalyzer.CountsSumToWordCount | server.js:923-937 | the counts sum to the number of counted words, and `palabrasUnicas` is the number of different words |
| LexicalAnalyzer.Insert | server.js:929 | inserting one entry yields a permutation of the entry and the list |
| LexicalAnalyzer.InsertKeepsSorted | server.js:929 | inserting into a sorted list keeps it sorted by count |
| LexicalAnalyzer.SortedCons | server.js:929 | an entry that no later entry goes before can head a sorted list |
| LexicalAnalyzer.SortedTableLength | server.js:928-929 | the sorted table has one entry per distinct word |
| LexicalAnalyzer.SortedEntriesAreTrue | server.js:928-929 | every entry of the sorted table is a word of the text with its true count |
| LexicalAnalyzer.EveryWordIsSorted | server.js:928-929 | every word of the text appears in the sorted table |
| LexicalAnalyzer.DistinctWordsOccurOnce | server.js:928 | a list of entries with pairwise different words holds each entry at most once |
| LexicalAnalyzer.SameWordSameEntry | server.js:928 | in such a list an entry is fixed by its word |
| LexicalAnalyzer.PermutationKeepsDistinctWords | server.js:929 | reordering a list of entries with pairwise different words keeps them different |
| LexicalAnalyzer.SortedWordsAreDistinct | server.js:928-934 | no word has two entries in either sorted table |
| LexicalAnalyzer.FirstTenOfSortedTable | server.js:928-934 | the first ten entries are sorted, name different words, hold true counts, and no left-out word goes before the tenth |
| LexicalAnalyzer.CountedMapIsTable | server.js:923-937 | the entries built from the counting map are exactly the frequency table, and the map has one key per distinct word |
| LexicalAnalyzer.EntriesOf | server.js:928 | `Object.entries` of the counting map in key order; `CountedMapIsTable` proves it equals the frequency table |
| LexicalAnalyzer.SortByCount | server.js:928-934 | both sorts return a permutation of the entries, ordered by count in their direction |
| LexicalAnalyzer.WithCountCons | server.js:928-934 | the entries with a given count, for a list with one more entry in front |
| LexicalAnalyzer.InsertStableSkip | server.js:928-934 | inserting past an earlier entry keeps the order among equal counts |
| LexicalAnalyzer.InsertIsStable | server.js:928-934 | insertion keeps the order of entries with equal counts |
| LexicalAnalyzer.SortIsStable | server.js:928-934 | like `Array.prototype.sort`, the sort is stable: equal counts keep key order |
| LexicalAnalyzer.Take | server.js:930 | `slice(0, 10)` keeps the first min(10, length) entries unchanged |
| LexicalAnalyzer.TopWords | server.js:928-930 | the descending sort and slice; `TopWordsAreTheMostFrequent` states what it returns |
| LexicalAnalyzer.LeastWords | server.js:932-934 | the ascending sort and slice; `LeastWordsAreTheLeastFrequent` states what it returns |
| LexicalAnalyzer.TopWordsAreTheMostFrequent | server.js:928-930 | up to ten entries for different words in descending count, each a real word with its true count, and every left-out word occurs no more often than the tenth |
| LexicalAnalyzer.LeastWordsAreTheLeastFrequent | server.js:932-934 | up to ten entries for different words in ascending count, each with its true count, and every left-out word occurs at least as often as the tenth |
| LexicalAnalyzer.AnalyzeFrequencies | server.js:911-942 | `totalPalabras` is the token count, `palabrasUnicas` the number of different counted words, and the two lists are the top and least ten of the counted words |
| LexicalAnalyzer.Analizar | server.js:744-841 | for either sanitiser, a rejected request gets its rejection; an accepted one gets its language, the frequency report of that language, and the length of the text that sanitiser leaves |
| ReportDelivery.FirstNameOrDefault | server.js:1285 | `nombre.split(' ')[0] \|\| 'Usuario'` is never empty and contains no space |
| ReportDelivery.WhatsAppName | server.js:734 | the name text `${nombre1} ${apellido1}` the WhatsApp script gets at server.js:1285: the first name or "Usuario", then a space and the empty surname |
| ReportDelivery.DeliverReport | server.js:1189-1297 | the handler as written; `DeliverReportCases` and `DeliverReportFailureCases` together state when each response and each unanswered request happens |
| ReportDelivery.DeliverReportChecked | server.js:1193-1290 | the handler with every check made before anything is sent; `CheckedRejectsBeforeSending` states it |
| ReportDelivery.DeliverReportCases | server.js:1189-1297 | the 400 responses for missing data, a wrong medium and a missing address happen exactly under their conditions; the response is 200 exactly when every check passes, the mail is accepted and WhatsApp has a name; a 200 delivers one e-mail and/or one WhatsApp message as the medium says |
| ReportDelivery.DeliverReportFailureCases | server.js:1224-1295 | the 500 exactly when the results carry no word lists; the 400 "Teléfono no proporcionado" exactly when WhatsApp lacks a phone after the earlier checks, with the e-mail already sent for "ambos"; no answer exactly on a mail failure or on WhatsApp without a name |
| ReportDelivery.AmbosWithoutPhoneMailsThenRejects | server.js:1251-1287 | as written, "ambos" without a phone number sends the e-mail and then answers 400 |
| ReportDelivery.WhatsAppWithoutNameNeverResponds | server.js:1279-1287 | as written, WhatsApp without a name never gets a response |
| ReportDelivery.CheckedRejectsBeforeSending | server.js:1193-1290 | with all checks first, a non-200 answer has sent nothing; no answer happens only on a mail failure; whenever the handler as written answers 200, the checked one answers the same |
| Recognition.FailedAttemptAction | public/script.js:238-250 | an unknown face is reported as "Desconocido", "Usuario no registrado", with the photo, the company and device "02" |
| Recognition.RecognitionAction | public/script.js:191-236 | no type selected gives a warning, "entrada" an entry marked "Exitosa", any other type an exit, for the user, company and device |
| Recognition.FaceAction | public/script.js:120-134 | a face labelled "unknown" is a failed attempt, any other the routed recognition action; `CountsOfFaceActions` counts them |
| Recognition.TickActions | public/script.js:120-134 | one action per detected face, in order |
| Recognition.CountsOfFaceActions | public/script.js:120-134 | failed attempts equal unknown faces; registrations are the recognised faces, or none without a type |
| Recognition.TickCounts | public/script.js:116-134 | the same counts for one recognition tick |
| Recognition.DescriptorsFor | public/script.js:70-80 | each loaded descriptor belongs to a listed user and is that user's detected descriptor |
| Recognition.DescriptorLabelsAreDistinct | public/script.js:70-80 | loading distinct users gives one descriptor per user, and every user with a detected face has one |
| Recognition.LoadStep | public/script.js:58-61 | loading a user already seen changes nothing; a new user adds its descriptor at the end |
| Recognition.SetOfSnoc | public/script.js:58-61 | the set of users after one more label is the old set plus that label |
| Recognition.TimerIds | public/script.js:109 | the ids handed out by a run of `setInterval` calls are exactly the numbers in the range |
| Recognition.RecognitionSession.constructor | public/script.js:8-14 | nothing is loaded or running at page start |
| Recognition.RecognitionSession.LoadModels | public/script.js:41-50 | the models are loaded and nothing else changes |
| Recognition.RecognitionSession.LoadUserDescriptor | public/script.js:70-83 | a user already loaded is skipped; otherwise they are marked loaded and their descriptor, if a face is detected, is appended |
| Recognition.RecognitionSession.LoadLabeledImages | public/script.js:52-68 | nothing happens without a company; otherwise the loaded users and descriptors are replaced by those of the listed users |
| Recognition.RecognitionSession.LoadEach | public/script.js:58-61 | after the loop, the loaded users are the listed ones and the descriptors those of their first occurrences |
| Recognition.RecognitionSession.LoadNext | public/script.js:58-61 | one loop step keeps loaded users and descriptors in step with the labels seen so far, and changes nothing else |
| Recognition.RecognitionSession.SelectEmpresa | public/script.js:169-176 | the company is stored; with a company and the models loaded, its users are loaded, or both collections are emptied when the list fails; without a company or models, nothing else changes |
| Recognition.RecognitionSession.StartCamera | public/script.js:88-103 | a no-op while active or before the models load; otherwise recognition becomes active, and with a camera one more 'loadeddata' listener is added |
| Recognition.RecognitionSession.OnVideoLoadedData | public/script.js:102-136 | every listener starts its own interval and only the last id is kept |
| Recognition.RecognitionSession.OnVideoLoadedDataClearingPrevious | public/script.js:102-136 | clearing the previous interval first leaves exactly one running, the one `intervalId` names |
| Recognition.RecognitionSession.StopCamera | public/script.js:139-152 | recognition stops and the named interval is cleared; if every running timer was named, none runs afterwards |
| Recognition.RecognitionSession.HandleRecognitionSuccess | public/script.js:191-205 | appends exactly the routed action for the selected type |
| Recognition.RecognitionSession.Tick | public/script.js:109-135 | with no descriptors loaded nothing is sent; otherwise the tick's actions are appended in face order |
| Recognition.StartStopTwiceLeaksAnInterval | public/script.js:88-152 | as written, start, stop, start, stop leaves one interval running |
| Recognition.StartStopTwiceClearingPrevious | public/script.js:88-152 | with the previous interval cleared, the same sequence leaves none running |

## Left out

- Face detection, descriptors and distance computation (face-api.js, TensorFlow) are inputs: the detected face and each row's distance are parameters.
- The database is an input. Query results are parameters, a failed query is `None`, and the SQL text is not modelled.
- `getUserIdByName` and the other server lookups behind `registerEntry`, `registerExit` and `registerFailedAttempt` (`public/script.js:210-250`) are network calls. The model records the action the client sends.
- Image work (Jimp resizing and rounding, compositing, segmentation, contrast and brightness) is not modelled. Placements are exact reals.
- The QR code, its random number (`server.js:123`), file writing and hashing are not modelled.
- PDF generation, nodemailer and the WhatsApp Python process are not modelled. The mail transport's answer is the parameter `mailAccepted`.
- Tokenising, the Spanish stemmer and the `compromise` part-of-speech tagging are not modelled. The tokens are the parameter `palabras`. So are the text decoding (jschardet) and the `&...;` entity removal: `UploadedFile.text` is the decoded text after it.
- `densidadLexica`, `totalOraciones` and `clasificacionesAdicionales` are not modelled. They are display statistics with floating-point formatting.
- Concurrency is not modelled: overlapping asynchronous ticks and requests are out of scope.
- The page's UI code (alerts, the modal, the company form, `public/script.js:276-361`) is not modelled.
- Text.ToLower: lower-cases ASCII, Latin-1 and the Cyrillic range U+0400–U+042F only, not the whole Unicode case mapping.
- LexicalAnalyzer.CountFrequencies: counts every word as an own key of a map, including "constructor". The code as written misnumbers that word, as shown by `ConstructorIsMiscounted` under Findings.
- LexicalAnalyzer.SortByCount: compares by count alone. The count of "constructor" as written is a string, which makes the comparator return NaN; that case is not modelled.
- LexicalAnalyzer.Sanitize: treats U+0400–U+052F as Cyrillic and does not cover the Cyrillic extension blocks.
- LexicalAnalyzer.Analizar: the 500 "Error al procesar análisis" of the outer `catch` (`server.js:834-840`) is not modelled. It answers exceptions from decoding, tokenising and tagging, which are outside the model; the text reaches `Analizar` already decoded.
- Keys like `__proto__`, which an object literal does not store as own keys, are not modelled.

## Findings

| source | as written | input that shows it | evidently intended | confidence | as-written member | corrected member |
|---|---|---|---|---|---|---|
| public/script.js:102-146 | every `startCamera` adds another 'loadeddata' listener; on the next start each listener starts an interval, only the last id is kept, and `stopCamera` clears only that one | start, load, stop, start, load, stop | no recognition interval runs after the camera stops | high, not executed | Recognition.StartStopTwiceLeaksAnInterval | Recognition.StartStopTwiceClearingPrevious |
| server.js:1251-1287 | for "ambos" the e-mail is sent before the phone number is checked, then 400 "Teléfono no proporcionado" is answered | medio "ambos", correo set, no telefono | a rejected request sends nothing | high, not executed | ReportDelivery.AmbosWithoutPhoneMailsThenRejects | ReportDelivery.CheckedRejectsBeforeSending |
| server.js:1285 | `nombre.split` throws inside the async 'finish' callback when no name is sent, so the request is never answered; the rejection is unhandled, which by default ends a Node 15+ process | medio "whatsapp", telefono set, no nombre | the request is answered and the name defaults to "Usuario" | high, not executed | ReportDelivery.WhatsAppWithoutNameNeverResponds | ReportDelivery.CheckedRejectsBeforeSending |
| server.js:923-926 | `frecuencia = {}` inherits `constructor`, so `(frecuencia[p] \|\| 0) + 1` concatenates onto a function's text | a text whose tokens are "constructor constructor" | the count 2 | medium, not executed | LexicalAnalyzer.ConstructorIsMiscounted | LexicalAnalyzer.CountFrequencies |
| server.js:773 | the whitelist keeps no Cyrillic letter, so a Russian text becomes "" and is rejected as empty | "привет мир" with idioma "ru" | Cyrillic text is kept for the Russian analysis | high, not executed | LexicalAnalyzer.RussianGreetingUploadIsRejected | LexicalAnalyzer.CorrectedHandlerAcceptsRussianUpload |
