# Missing-ingredient matcher, modelled in Dafny

This project models the missing-ingredient check of the Morizo web front end
(`lib/utils/ingredient-checker.ts`). Given the ingredient names a recipe needs
and the names of the ingredients the user has, `getMissingIngredients` returns
the recipe entries the user lacks. They come back in their original spelling
and in recipe order. It works in four steps:

- **Normalization** (`normalizeIngredientName`): trim, lower-case, then fold
  katakana U+30A1..U+30F6 onto hiragana by subtracting 0x60.
- **No inventory, no verdict**: an absent or empty available list gives an
  empty result.
- **Exclusion**: a name that contains, or is contained in, an entry of the fixed
  seasoning/staple list `EXCLUDED_INGREDIENTS` is never reported. That list is
  stored lower-cased but not kana-folded.
- **Matching**: a name counts as present when it equals a normalized available
  name, or when it and such a name contain each other in either direction.

The model is pure, as the source is. It has two modules:

- `text.dfy`, module `Text`: the JavaScript string operations the checker uses.
  `Trim` removes exactly the ECMAScript WhiteSpace and LineTerminator
  characters. `Lower` is a character-wise `toLowerCase` (see "Left out").
  `Includes` is `String.prototype.includes`, and it is proved equal to a
  positional definition.
- `ingredient_checker.dfy`, module `IngredientChecker`: the exclusion list,
  `KatakanaToHiragana`, `NormalizeIngredientName`, `NormalizedSet` (the
  `Set` of normalized available names), `Filter` (`Array.prototype.filter`)
  and `GetMissingIngredients`. It also holds the lemmas about them.

The available list is an `Option<seq<string>>`, so the source's
`!availableIngredients` test (absent list) is modelled along with the empty
list.

The code keeps the exclusion list unfolded, and the model keeps it that way
too. As a result, an exclusion entry that holds a katakana letter of the
folded range, such as `コンソメ` (line 40), can never be contained in a
normalized name. Such an entry only excludes names that are part of it, and
it does not exclude the very name it spells (`KatakanaEntryMissesItself`).
`ネギ分` (line 44) is a second case: the comment beside it says that spelling
is excluded, but the name normalizes to `ねぎ分`, which its own entry neither
contains nor is contained in (`GreenOnionEntryMissesItself`). The
prolonged-sound mark `ー` (U+30FC) is outside the folded range and is kept.

## Model

| member | source | states |
|---|---|---|
| `Text.IsWhitespace` | lib/utils/ingredient-checker.ts:109 | the characters `trim()` removes, the ECMAScript WhiteSpace and LineTerminator code points; none of them is a capital letter |
| `Text.TrimStart` | lib/utils/ingredient-checker.ts:109 | the result is a suffix of the input; everything dropped is whitespace; the result does not start with whitespace |
| `Text.TrimEnd` | lib/utils/ingredient-checker.ts:109 | the result is a prefix of the input; everything dropped is whitespace; the result does not end with whitespace |
| `Text.Trim` | lib/utils/ingredient-checker.ts:109 | `trim()` never lengthens its input and leaves no whitespace at either end |
| `Text.TrimIsSlice` | lib/utils/ingredient-checker.ts:109 | what `trim()` keeps is a contiguous slice of the input, preceded and followed only by whitespace |
| `Text.TrimOfTrimmed` | lib/utils/ingredient-checker.ts:109 | a string with no whitespace at either end is its own trim, so trimming is idempotent |
| `Text.TrimAllWhitespace` | lib/utils/ingredient-checker.ts:109 | an empty or whitespace-only string trims to the empty string |
| `Text.MapChars` | lib/utils/ingredient-checker.ts:95-98 | a per-character replacement keeps the length and maps the character at each position |
| `Text.MapCharsTrimmed` | lib/utils/ingredient-checker.ts:109-112 | a whitespace-preserving character map keeps a trimmed string trimmed |
| `Text.TrimMap` | lib/utils/ingredient-checker.ts:109-112 | trimming commutes with any character map that keeps whitespace as whitespace and everything else as non-whitespace |
| `Text.LowerChar` | lib/utils/ingredient-checker.ts:109 | lower-casing one character: the result is never a capital; capitals move up by 0x20; every other character, whitespace included, is kept |
| `Text.Lower` | lib/utils/ingredient-checker.ts:109 | `toLowerCase`, character by character: same length, each character mapped by `LowerChar`, no capital left |
| `Text.LowerKeepsWhitespace` | lib/utils/ingredient-checker.ts:109 | `toLowerCase` neither creates nor removes whitespace |
| `Text.LowerOfLower` | lib/utils/ingredient-checker.ts:109 | a string with no capitals is unchanged by `toLowerCase`, so lower-casing is idempotent |
| `Text.Includes` | lib/utils/ingredient-checker.ts:142 | `s.includes(sub)`, as used at lines 142 and 154: every string includes the empty string; an included string is never longer than the including one, and at equal length it is that string |
| `Text.IncludesIff` | lib/utils/ingredient-checker.ts:142 | `s.includes(sub)` holds exactly when `sub` occurs in `s` at some index (both directions) |
| `Text.IncludesEmpty` | lib/utils/ingredient-checker.ts:142 | every string includes the empty string |
| `Text.IncludesSelf` | lib/utils/ingredient-checker.ts:154 | every string includes itself |
| `Text.IncludesNoLonger` | lib/utils/ingredient-checker.ts:142 | a string includes nothing longer than itself, and of its own length only itself |
| `Text.IncludesOtherOfSameLength` | lib/utils/ingredient-checker.ts:142 | a string does not include a different string of the same length |
| `Text.IncludesChars` | lib/utils/ingredient-checker.ts:142 | every character of an included string occurs in the including string |
| `IngredientChecker.StoredExclusions` | lib/utils/ingredient-checker.ts:10-85 | the exclusion list as written holds 76 entries |
| `IngredientChecker.LowerAll` | lib/utils/ingredient-checker.ts:86 | `names.map(ing => ing.toLowerCase())`: the result has the input's length and holds, at each index, the lower-cased input entry |
| `IngredientChecker.ExcludedIngredients` | lib/utils/ingredient-checker.ts:9-86 | `EXCLUDED_INGREDIENTS` holds the 76 written entries, each lower-cased and nothing more, so no entry holds a capital letter |
| `IngredientChecker.IsExcluded` | lib/utils/ingredient-checker.ts:141-143 | a normalized name is excluded exactly when it contains, or is contained in, the lower-cased form of some entry of the written list |
| `IngredientChecker.FullwidthEntryLowered` | lib/utils/ingredient-checker.ts:76-86 | the stored list is only lower-cased: `ＢＰ` becomes `ｂｐ` (not ASCII) and `bp` stays |
| `IngredientChecker.IsFoldedKatakana` | lib/utils/ingredient-checker.ts:95 | the class `[\u30A1-\u30F6]`: every character of it lies outside ASCII and is neither whitespace nor a capital letter |
| `IngredientChecker.KanaChar` | lib/utils/ingredient-checker.ts:95-98 | the per-character fold never yields a folded-range katakana, keeps whitespace status, and creates no capital |
| `IngredientChecker.KatakanaToHiragana` | lib/utils/ingredient-checker.ts:94-99 | keeps length; shifts each character of U+30A1..U+30F6 down by 0x60; leaves all others unchanged; leaves no character of that range |
| `IngredientChecker.KatakanaToHiraganaOfUnfolded` | lib/utils/ingredient-checker.ts:94-99 | a string without folded-range katakana is left unchanged |
| `IngredientChecker.KatakanaToHiraganaChanges` | lib/utils/ingredient-checker.ts:94-99 | a string holding a folded-range katakana letter is changed by the fold |
| `IngredientChecker.KatakanaToHiraganaIdempotent` | lib/utils/ingredient-checker.ts:94-99 | folding twice equals folding once |
| `IngredientChecker.KanaKeepsWhitespace` | lib/utils/ingredient-checker.ts:95-98 | the fold neither creates nor removes whitespace |
| `IngredientChecker.NormalizeIngredientName` | lib/utils/ingredient-checker.ts:107-115 | a normalized name is never longer than the input; it has no whitespace at either end, no capital and no folded-range katakana |
| `IngredientChecker.NormalizeIdempotent` | lib/utils/ingredient-checker.ts:107-115 | normalizing a normalized name changes nothing |
| `IngredientChecker.NormalizeOfTrimmed` | lib/utils/ingredient-checker.ts:107-115 | a name with no whitespace at either end is only lower-cased and folded |
| `IngredientChecker.NormalizeClean` | lib/utils/ingredient-checker.ts:107-115 | a name with no whitespace at either end and no capital is only folded |
| `IngredientChecker.NormalizeTrimsLast` | lib/utils/ingredient-checker.ts:109-112 | trimming first equals trimming after lower-casing and folding |
| `IngredientChecker.SameFoldSameName` | lib/utils/ingredient-checker.ts:107-115 | spellings that differ only in letter case or in katakana against hiragana normalize to the same name |
| `IngredientChecker.BlankNormalizesToEmpty` | lib/utils/ingredient-checker.ts:109 | an empty or whitespace-only name normalizes to the empty string |
| `IngredientChecker.NormalizedSet` | lib/utils/ingredient-checker.ts:133-135 | the available set holds the normalized form of every available entry and nothing else |
| `IngredientChecker.ExactMatchIsContainment` | lib/utils/ingredient-checker.ts:148-156 | a name in the available set also passes the containment test, so the exact test never changes the verdict |
| `IngredientChecker.Filter` | lib/utils/ingredient-checker.ts:137 | `filter` keeps exactly the accepted elements: the result is a subsequence of the input, and each element occurs as often as in the input if accepted and not at all otherwise |
| `IngredientChecker.GetMissingIngredients` | lib/utils/ingredient-checker.ts:124-158 | an absent or empty available list gives `[]`; the result is a subsequence of the recipe list; it holds each missing entry (not excluded, not exactly available, not matched by containment) as often as the recipe does and no other entry |
| `IngredientChecker.MatchesSomeAvailable` | lib/utils/ingredient-checker.ts:153-155 | the containment test against the available set: it passes for every name in the set and fails against an empty set |
| `IngredientChecker.IsMissing` | lib/utils/ingredient-checker.ts:138-156 | the filter callback judges an entry missing exactly when its normalized name is not excluded and matches no available name by containment, so the exact-membership test never decides alone |
| `IngredientChecker.ReportedIffMissing` | lib/utils/ingredient-checker.ts:137-157 | with a non-empty available list, an entry is reported exactly when it is in the recipe and the filter rejects it as missing |
| `IngredientChecker.MatchesSomeAvailableIff` | lib/utils/ingredient-checker.ts:153-155 | the containment test against the available set holds exactly when it holds against the normalized form of some available entry |
| `IngredientChecker.MissingCharacterisation` | lib/utils/ingredient-checker.ts:137-157 | with a non-empty available list, an entry is in the result exactly when it is in the recipe, is not excluded, equals no normalized available name and contains or is contained in none of them |
| `IngredientChecker.ExactMatchNeverMissing` | lib/utils/ingredient-checker.ts:148-150 | an entry whose normalized name equals a normalized available name is never reported |
| `IngredientChecker.ContainmentNeverMissing` | lib/utils/ingredient-checker.ts:152-156 | an entry whose normalized name contains, or is contained in, a normalized available name is never reported |
| `IngredientChecker.ExcludedNeverMissing` | lib/utils/ingredient-checker.ts:141-145 | an entry whose normalized name contains, or is contained in, an exclusion entry is never reported, whatever the available list |
| `IngredientChecker.UnmatchedIsReported` | lib/utils/ingredient-checker.ts:137-157 | the converse of the suppression lemmas: with a non-empty available list, a recipe entry that is not excluded and neither contains nor is contained in any normalized available name is reported |
| `IngredientChecker.ExcludedIngredientsShape` | lib/utils/ingredient-checker.ts:9-86 | every exclusion entry has one to nine characters and starts with `b` or a non-ASCII character |
| `IngredientChecker.PlainAsciiNameNotExcluded` | lib/utils/ingredient-checker.ts:141-145 | a name of more than nine lower-case ASCII letters without `b` is excluded by no entry, in either direction |
| `IngredientChecker.AsciiLowerWordNormalized` | lib/utils/ingredient-checker.ts:107-115 | a word of lower-case ASCII letters normalizes to itself |
| `IngredientChecker.MissingAgainstOne` | lib/utils/ingredient-checker.ts:138-156 | against a single available name, an entry that is not excluded and does not contain, nor is contained in, that name is missing |
| `IngredientChecker.TrueMissReported` | lib/utils/ingredient-checker.ts:137-157 | a true miss is reported: with only `egg` available, the recipe entry `cauliflower` is in the result |
| `IngredientChecker.BlankNeverMissing` | lib/utils/ingredient-checker.ts:141-145 | an empty or whitespace-only entry is never reported: it trims to the empty string, which every exclusion entry contains |
| `IngredientChecker.KatakanaEntryNeverContained` | lib/utils/ingredient-checker.ts:141-142 | an exclusion entry holding a folded-range katakana letter is never contained in any normalized name |
| `IngredientChecker.EntryExcludesItself` | lib/utils/ingredient-checker.ts:9-86 | a stored entry with no whitespace at either end and no folded-range katakana once lower-cased normalizes to its own exclusion entry and is therefore excluded |
| `IngredientChecker.KatakanaEntryMissesItself` | lib/utils/ingredient-checker.ts:9-86 | a stored spelling with no whitespace at either end and a folded-range katakana letter once lower-cased neither contains nor is contained in its own exclusion entry after normalization |
| `IngredientChecker.ConsommeEntryStored` | lib/utils/ingredient-checker.ts:40 | the exclusion entry `コンソメ` is kept in katakana |
| `IngredientChecker.ConsommeNormalized` | lib/utils/ingredient-checker.ts:107-115 | the name `コンソメ` normalizes to `こんそめ` |
| `IngredientChecker.ConsommeEntryMissesItself` | lib/utils/ingredient-checker.ts:40 | the name `コンソメ` and its own exclusion entry do not contain each other |
| `IngredientChecker.GreenOnionEntryStored` | lib/utils/ingredient-checker.ts:44 | the exclusion entry `ネギ分` is kept in katakana |
| `IngredientChecker.GreenOnionEntryMissesItself` | lib/utils/ingredient-checker.ts:44 | the name `ネギ分`, which the comment at line 44 calls excluded, and its own exclusion entry do not contain each other |
| `IngredientChecker.ProlongedSoundMarkKept` | lib/utils/ingredient-checker.ts:95 | `カレールー` normalizes to `かれーるー`: the prolonged-sound mark U+30FC is outside the folded range |
| `IngredientChecker.SaltEntryStored` | lib/utils/ingredient-checker.ts:13 | `塩` (salt) is stored as an exclusion entry |
| `IngredientChecker.SaltNormalized` | lib/utils/ingredient-checker.ts:107-115 | `塩` normalizes to itself |
| `IngredientChecker.SaltIsExcluded` | lib/utils/ingredient-checker.ts:13 | `塩` is excluded by its own entry |
| `IngredientChecker.SaltNeverMissing` | lib/utils/ingredient-checker.ts:13 | `塩` is never reported missing, whatever the lists |
| `IngredientChecker.SaltAndEggExample` | lib/utils/ingredient-checker.ts:137-150 | with `卵` (egg) available, the recipe `[塩, 卵]` has no missing ingredient |
| `IngredientChecker.PorkBellyMeatNormalized` | lib/utils/ingredient-checker.ts:107-115 | `豚バラ肉` normalizes to `豚ばら肉` |
| `IngredientChecker.PorkBellyNormalized` | lib/utils/ingredient-checker.ts:107-115 | `豚バラ` normalizes to `豚ばら` |
| `IngredientChecker.PorkBellyContained` | lib/utils/ingredient-checker.ts:152-156 | the normalized `豚バラ肉` contains the normalized `豚バラ` |
| `IngredientChecker.PorkBellyExample` | lib/utils/ingredient-checker.ts:152-156 | with `豚バラ` available, `豚バラ肉` is not missing |

## Left out

- The HTTP handlers are not part of this model: the check-missing route, subscription usage, the RevenueCat webhook and the Whisper transcription route. They do CORS, authentication forwarding, logging and calls to external services. The check-missing route's test that both arguments are arrays is modelled only by the input types. A non-string array element is outside the model.
- The authentication context, middleware, HTTPS server bootstrap and the React components and hooks are not part of this model. They are browser, library or UI code.
- Text.Lower: lower-cases only ASCII A–Z and fullwidth Ａ–Ｚ. Every other character is kept, including other case-mapped scripts (Latin-1, Greek, Cyrillic) and the multi-character mappings of the JavaScript engine's Unicode tables. The only capitals in the exclusion list are `ＢＰ`, and they are covered.
- Text.LowerChar: is the single-character part of that restricted mapping, for the same reason.
- IngredientChecker.NormalizeIngredientName: its bound `|r| <= |ingredient|` rests on that restricted lower-casing. The JavaScript engine maps some characters to two, for example U+0130 to `i` followed by U+0307, so a real normalized name can be longer than its input.
- Strings are sequences of Unicode scalar values, not UTF-16 code units. The fold's range lies in the Basic Multilingual Plane, so this does not change what is folded. Lone surrogates cannot be represented.
- Determinism and the absence of side effects need no lemma: every modelled operation is a Dafny function.
