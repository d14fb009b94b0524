/** The missing-ingredient matcher: given the ingredient names a recipe needs
    and the names of the ingredients the user has, it returns the recipe
    entries the user lacks, as written and in recipe order. Seasonings and
    staples on a fixed exclusion list are never reported, and an ingredient
    counts as present when its normalized name equals, contains or is
    contained in a normalized available name. */
module IngredientChecker {
  import opened Text

  /** An argument JavaScript may pass as `undefined` or `null`. */
  datatype Option<+T> = None | Some(value: T)

  // ---------------------------------------------------------------------------
  // The exclusion list
  // ---------------------------------------------------------------------------

  /** The exclusion list as it is written, before it is lower-cased, in
      rows of six (lines 10-85, in order). */
  function StoredExclusions(): (r: seq<string>)
    ensures |r| == 76
  {
    ExclusionRow0 + ExclusionRow1 + ExclusionRow2 + ExclusionRow3 + ExclusionRow4 +
    ExclusionRow5 + ExclusionRow6 + ExclusionRow7 + ExclusionRow8 + ExclusionRow9 +
    ExclusionRow10 + ExclusionRow11 + ExclusionRow12
  }

  const ExclusionRow0: seq<string> := ["水", "はちみつ", "ハチミツ", "塩", "こしょう", "胡椒"]
  const ExclusionRow1: seq<string> := ["コショウ", "醤油", "しょうゆ", "味噌", "みそ", "砂糖"]
  const ExclusionRow2: seq<string> := ["みりん", "酒", "料理酒", "酢", "油", "サラダ油"]
  const ExclusionRow3: seq<string> := ["オリーブオイル", "ごま油", "バター", "マヨネーズ", "ケチャップ", "ウスターソース"]
  const ExclusionRow4: seq<string> := ["オイスターソース", "豆板醤", "甜麺醤", "味の素", "だし", "だしの素"]
  const ExclusionRow5: seq<string> := ["コンソメ", "顆粒だし", "チューブ生姜", "チューブにんにく", "ネギ分", "ブラックペッパー"]
  const ExclusionRow6: seq<string> := ["ブラックペッパ", "ペッパー", "ガーリックパウダー", "ガーリックパウダ", "にんにくパウダー", "にんにくパウダ"]
  const ExclusionRow7: seq<string> := ["パルメザンチーズ", "パルメザン", "パルメザンチーズ粉", "めんつゆ", "メンツユ", "栗粉"]
  const ExclusionRow8: seq<string> := ["くりこ", "片栗粉", "かたくりこ", "スープ", "生姜", "しょうが"]
  const ExclusionRow9: seq<string> := ["ショウガ", "おろし生姜", "おろししょうが", "おろしショウガ", "にんにく", "ニンニク"]
  const ExclusionRow10: seq<string> := ["おろしにんにく", "おろしニンニク", "ガラスープの素", "がらスープの素", "鶏がらスープの素", "鶏ガラスープの素"]
  const ExclusionRow11: seq<string> := ["ＢＰ", "bp", "ベーキングパウダー", "ベーキングパウダ", "カレールー", "カレー粉"]
  const ExclusionRow12: seq<string> := ["米粉", "こめこ", "クレージーソルト", "コーンスターチ"]

  /** At most nine characters, and the first is `b` or lies outside ASCII. */
  predicate ShortNonAsciiLed(entry: string) {
    0 < |entry| <= 9 && (entry[0] == 'b' || entry[0] as int > 0x7F)
  }

  /** Every entry of `entries` is short and led by `b` or a non-ASCII
      character. */
  predicate AllShortNonAsciiLed(entries: seq<string>) {
    forall i :: 0 <= i < |entries| ==> ShortNonAsciiLed(entries[i])
  }

  lemma AllShortNonAsciiLedConcat(a: seq<string>, b: seq<string>)
    requires AllShortNonAsciiLed(a) && AllShortNonAsciiLed(b)
    ensures AllShortNonAsciiLed(a + b)
  {
    assert forall i :: 0 <= i < |b| ==> (a + b)[|a| + i] == b[i];
  }

  /** The first seven rows of the stored list are short and led by `b` or a
      non-ASCII character. */
  lemma ExclusionRowsShape0To6()
    ensures AllShortNonAsciiLed(ExclusionRow0)
    ensures AllShortNonAsciiLed(ExclusionRow1)
    ensures AllShortNonAsciiLed(ExclusionRow2)
    ensures AllShortNonAsciiLed(ExclusionRow3)
    ensures AllShortNonAsciiLed(ExclusionRow4)
    ensures AllShortNonAsciiLed(ExclusionRow5)
    ensures AllShortNonAsciiLed(ExclusionRow6)
  {
  }

  /** The last six rows of the stored list are short and led by `b` or a
      non-ASCII character. */
  lemma ExclusionRowsShape7To12()
    ensures AllShortNonAsciiLed(ExclusionRow7)
    ensures AllShortNonAsciiLed(ExclusionRow8)
    ensures AllShortNonAsciiLed(ExclusionRow9)
    ensures AllShortNonAsciiLed(ExclusionRow10)
    ensures AllShortNonAsciiLed(ExclusionRow11)
    ensures AllShortNonAsciiLed(ExclusionRow12)
  {
  }

  /** Every stored entry is short and starts with `b` or a non-ASCII
      character. */
  lemma StoredExclusionsShape()
    ensures AllShortNonAsciiLed(StoredExclusions())
  {
    ExclusionRowsShape0To6();
    ExclusionRowsShape7To12();
    AllShortNonAsciiLedConcat(ExclusionRow0, ExclusionRow1);
    AllShortNonAsciiLedConcat(ExclusionRow0 + ExclusionRow1, ExclusionRow2);
    AllShortNonAsciiLedConcat(ExclusionRow0 + ExclusionRow1 + ExclusionRow2, ExclusionRow3);
    AllShortNonAsciiLedConcat(ExclusionRow0 + ExclusionRow1 + ExclusionRow2 + ExclusionRow3, ExclusionRow4);
    AllShortNonAsciiLedConcat(ExclusionRow0 + ExclusionRow1 + ExclusionRow2 + ExclusionRow3 + ExclusionRow4, ExclusionRow5);
    AllShortNonAsciiLedConcat(ExclusionRow0 + ExclusionRow1 + ExclusionRow2 + ExclusionRow3 + ExclusionRow4 + ExclusionRow5, ExclusionRow6);
    AllShortNonAsciiLedConcat(ExclusionRow0 + ExclusionRow1 + ExclusionRow2 + ExclusionRow3 + ExclusionRow4 + ExclusionRow5 + ExclusionRow6, ExclusionRow7);
    AllShortNonAsciiLedConcat(ExclusionRow0 + ExclusionRow1 + ExclusionRow2 + ExclusionRow3 + ExclusionRow4 + ExclusionRow5 + ExclusionRow6 + ExclusionRow7, ExclusionRow8);
    AllShortNonAsciiLedConcat(ExclusionRow0 + ExclusionRow1 + ExclusionRow2 + ExclusionRow3 + ExclusionRow4 + ExclusionRow5 + ExclusionRow6 + ExclusionRow7 + ExclusionRow8, ExclusionRow9);
    AllShortNonAsciiLedConcat(ExclusionRow0 + ExclusionRow1 + ExclusionRow2 + ExclusionRow3 + ExclusionRow4 + ExclusionRow5 + ExclusionRow6 + ExclusionRow7 + ExclusionRow8 + ExclusionRow9, ExclusionRow10);
    AllShortNonAsciiLedConcat(ExclusionRow0 + ExclusionRow1 + ExclusionRow2 + ExclusionRow3 + ExclusionRow4 + ExclusionRow5 + ExclusionRow6 + ExclusionRow7 + ExclusionRow8 + ExclusionRow9 + ExclusionRow10, ExclusionRow11);
    AllShortNonAsciiLedConcat(ExclusionRow0 + ExclusionRow1 + ExclusionRow2 + ExclusionRow3 + ExclusionRow4 + ExclusionRow5 + ExclusionRow6 + ExclusionRow7 + ExclusionRow8 + ExclusionRow9 + ExclusionRow10 + ExclusionRow11, ExclusionRow12);
  }

  /** `names.map(ing => ing.toLowerCase())`. */
  function LowerAll(names: seq<string>): (r: seq<string>)
    ensures |r| == |names|
    ensures forall i :: 0 <= i < |names| ==> r[i] == Lower(names[i])
  {
    seq(|names|, i requires 0 <= i < |names| => Lower(names[i]))
  }

  /** EXCLUDED_INGREDIENTS: the stored list lower-cased, and nothing more (it
      is neither trimmed nor kana-folded). */
  function ExcludedIngredients(): (r: seq<string>)
    ensures |r| == |StoredExclusions()| == 76
    ensures forall i :: 0 <= i < |r| ==> r[i] == Lower(StoredExclusions()[i])
    ensures forall i, k :: 0 <= i < |r| && 0 <= k < |r[i]| ==> !IsUpper(r[i][k])
  {
    LowerAll(StoredExclusions())
  }

  /** The two strings contain each other in one direction or the other. */
  predicate IncludesEitherWay(a: string, b: string) {
    Includes(a, b) || Includes(b, a)
  }

  /** A normalized name is excluded when it and some exclusion entry contain
      each other in either direction. */
  predicate IsExcluded(normalized: string): (r: bool)
    ensures r <==> exists i :: 0 <= i < |StoredExclusions()| && IncludesEitherWay(normalized, Lower(StoredExclusions()[i]))
  {
    var excluded := ExcludedIngredients();
    assert forall i :: 0 <= i < |excluded| ==> excluded[i] == Lower(StoredExclusions()[i]);
    exists i :: 0 <= i < |excluded| && IncludesEitherWay(normalized, excluded[i])
  }

  // ---------------------------------------------------------------------------
  // Normalization
  // ---------------------------------------------------------------------------

  /** KATAKANA LETTER SMALL A (U+30A1) .. KATAKANA LETTER SMALL KE (U+30F6). */
  predicate IsFoldedKatakana(c: char): (r: bool)
    ensures r ==> c as int > 0x7F && !IsWhitespace(c) && !IsUpper(c)
  {
    '\U{30A1}' <= c <= '\U{30F6}'
  }

  /** The per-character replacement: a katakana letter in the folded range
      moves 0x60 code points down, onto its hiragana; anything else stays. */
  function KanaChar(c: char): (d: char)
    ensures !IsFoldedKatakana(d)
    ensures IsWhitespace(d) == IsWhitespace(c)
    ensures !IsUpper(d) || d == c
  {
    if IsFoldedKatakana(c) then (c as int - 0x60) as char else c
  }

  /** katakanaToHiragana: keeps the length, shifts every character of
      U+30A1..U+30F6 down by 0x60, leaves every other character as it is, and
      leaves no character of that range behind. */
  function KatakanaToHiragana(text: string): (r: string)
    ensures |r| == |text|
    ensures forall i :: 0 <= i < |text| && IsFoldedKatakana(text[i]) ==> r[i] as int == text[i] as int - 0x60
    ensures forall i :: 0 <= i < |text| && !IsFoldedKatakana(text[i]) ==> r[i] == text[i]
    ensures forall i :: 0 <= i < |r| ==> !IsFoldedKatakana(r[i])
  {
    MapChars(KanaChar, text)
  }

  /** A string without katakana of the folded range is left unchanged. */
  lemma KatakanaToHiraganaOfUnfolded(text: string)
    requires forall i :: 0 <= i < |text| ==> !IsFoldedKatakana(text[i])
    ensures KatakanaToHiragana(text) == text
  {
    assert forall i :: 0 <= i < |text| ==> KatakanaToHiragana(text)[i] == text[i];
  }

  /** A string holding a katakana letter of the folded range is changed by
      the fold. */
  lemma KatakanaToHiraganaChanges(text: string, k: int)
    requires 0 <= k < |text| && IsFoldedKatakana(text[k])
    ensures KatakanaToHiragana(text) != text
  {
    assert KatakanaToHiragana(text)[k] != text[k];
  }

  /** Folding twice is folding once. */
  lemma KatakanaToHiraganaIdempotent(text: string)
    ensures KatakanaToHiragana(KatakanaToHiragana(text)) == KatakanaToHiragana(text)
  {
    KatakanaToHiraganaOfUnfolded(KatakanaToHiragana(text));
  }

  /** normalizeIngredientName: trim, lower-case, then fold katakana. The
      result has no whitespace at either end, no capital letter and no
      katakana of the folded range, and it is never longer than the input. */
  function NormalizeIngredientName(ingredient: string): (r: string)
    ensures |r| <= |ingredient|
    ensures Trimmed(r)
    ensures forall i :: 0 <= i < |r| ==> !IsUpper(r[i]) && !IsFoldedKatakana(r[i])
  {
    var t := Trim(ingredient);
    LowerKeepsWhitespace();
    KanaKeepsWhitespace();
    MapCharsTrimmed(LowerChar, t);
    MapCharsTrimmed(KanaChar, Lower(t));
    KatakanaToHiragana(Lower(t))
  }

  /** The kana fold neither creates nor removes whitespace. */
  lemma KanaKeepsWhitespace()
    ensures KeepsWhitespace(KanaChar)
  {
  }

  /** Normalizing a normalized name changes nothing. */
  lemma NormalizeIdempotent(ingredient: string)
    ensures NormalizeIngredientName(NormalizeIngredientName(ingredient)) == NormalizeIngredientName(ingredient)
  {
    var n := NormalizeIngredientName(ingredient);
    TrimOfTrimmed(n);
    LowerOfLower(n);
    KatakanaToHiraganaOfUnfolded(n);
  }

  /** Made of lower-case ASCII letters only. */
  predicate IsAsciiLowerWord(s: string) {
    forall k :: 0 <= k < |s| ==> 'a' <= s[k] <= 'z'
  }

  lemma AsciiLowerWordClean(word: string)
    requires IsAsciiLowerWord(word)
    ensures Trimmed(word)
    ensures forall k :: 0 <= k < |word| ==> !IsUpper(word[k]) && !IsFoldedKatakana(word[k])
  {
  }

  /** A word of lower-case ASCII letters is its own normalized name. */
  lemma AsciiLowerWordNormalized(word: string)
    requires IsAsciiLowerWord(word)
    ensures NormalizeIngredientName(word) == word
  {
    AsciiLowerWordClean(word);
    NormalizeClean(word);
    KatakanaToHiraganaOfUnfolded(word);
  }

  /** A name with no whitespace at either end is only lower-cased and
      folded. */
  lemma NormalizeOfTrimmed(ingredient: string)
    requires Trimmed(ingredient)
    ensures NormalizeIngredientName(ingredient) == KatakanaToHiragana(Lower(ingredient))
  {
    TrimOfTrimmed(ingredient);
  }

  /** A name with no whitespace at either end and no capital letter only
      has its katakana folded. */
  lemma NormalizeClean(ingredient: string)
    requires Trimmed(ingredient)
    requires forall i :: 0 <= i < |ingredient| ==> !IsUpper(ingredient[i])
    ensures NormalizeIngredientName(ingredient) == KatakanaToHiragana(ingredient)
  {
    TrimOfTrimmed(ingredient);
    LowerOfLower(ingredient);
  }

  /** Trimming may equally be done last: a name normalizes to the trim of
      its lower-cased, kana-folded form. */
  lemma NormalizeTrimsLast(ingredient: string)
    ensures NormalizeIngredientName(ingredient) == Trim(KatakanaToHiragana(Lower(ingredient)))
  {
    LowerKeepsWhitespace();
    TrimMap(LowerChar, ingredient);
    KanaKeepsWhitespace();
    TrimMap(KanaChar, Lower(ingredient));
  }

  /** Two spellings that differ only in letter case or in katakana against
      hiragana normalize to the same name. */
  lemma SameFoldSameName(a: string, b: string)
    requires KatakanaToHiragana(Lower(a)) == KatakanaToHiragana(Lower(b))
    ensures NormalizeIngredientName(a) == NormalizeIngredientName(b)
  {
    NormalizeTrimsLast(a);
    NormalizeTrimsLast(b);
  }

  /** An empty or whitespace-only name normalizes to the empty string. */
  lemma BlankNormalizesToEmpty(ingredient: string)
    requires AllWhitespace(ingredient)
    ensures NormalizeIngredientName(ingredient) == []
  {
    TrimAllWhitespace(ingredient);
  }

  // ---------------------------------------------------------------------------
  // Matching
  // ---------------------------------------------------------------------------

  /** The set of normalized available names (`new Set(available.map(...))`):
      it holds the normalized form of every entry and nothing else. */
  function NormalizedSet(available: seq<string>): (s: set<string>)
    ensures forall j :: 0 <= j < |available| ==> NormalizeIngredientName(available[j]) in s
    ensures forall n :: n in s ==> exists j :: 0 <= j < |available| && NormalizeIngredientName(available[j]) == n
  {
    set j | 0 <= j < |available| :: NormalizeIngredientName(available[j])
  }

  /** One available name gives a one-element set. */
  lemma NormalizedSetOfOne(available: string)
    ensures NormalizedSet([available]) == {NormalizeIngredientName(available)}
  {
    var list, n := [available], NormalizeIngredientName(available);
    var set1 := NormalizedSet(list);
    assert list[0] == available;
    forall m | m in set1
      ensures m == n
    {
      var j :| 0 <= j < |list| && NormalizeIngredientName(list[j]) == m;
      assert j == 0;
    }
    assert n in set1;
  }

  /** Some available name and `normalized` contain each other in either
      direction. */
  predicate MatchesSomeAvailable(normalized: string, availableSet: set<string>): (r: bool)
    ensures normalized in availableSet ==> r
    ensures availableSet == {} ==> !r
  {
    exists a :: a in availableSet && IncludesEitherWay(normalized, a)
  }

  /** The filter's verdict for one recipe entry: not excluded, not exactly
      available and not matched by containment. */
  predicate IsMissing(ingredient: string, availableSet: set<string>): (r: bool)
    ensures r <==> !IsExcluded(NormalizeIngredientName(ingredient)) &&
                   !MatchesSomeAvailable(NormalizeIngredientName(ingredient), availableSet)
  {
    var normalized := NormalizeIngredientName(ingredient);
    if IsExcluded(normalized) then false
    else if normalized in availableSet then false
    else !MatchesSomeAvailable(normalized, availableSet)
  }

  /** The exact-membership test is subsumed by the containment test: a name
      in the available set contains itself. */
  lemma ExactMatchIsContainment(normalized: string, availableSet: set<string>)
    requires normalized in availableSet
    ensures MatchesSomeAvailable(normalized, availableSet)
  {
    IncludesSelf(normalized);
  }

  /** `a` is `b` with some elements left out, the rest in the same order. */
  predicate IsSubsequence<T(==)>(a: seq<T>, b: seq<T>)
    decreases |b|
  {
    a == [] || (b != [] && ((a[0] == b[0] && IsSubsequence(a[1..], b[1..])) || IsSubsequence(a, b[1..])))
  }

  /** `Array.prototype.filter`: keeps exactly the elements `keep` accepts,
      in order and with their multiplicity, and nothing else. */
  function Filter(keep: string -> bool, xs: seq<string>): (r: seq<string>)
    ensures IsSubsequence(r, xs)
    ensures forall x :: multiset(r)[x] == if keep(x) then multiset(xs)[x] else 0
  {
    if xs == [] then []
    else
      var rest := Filter(keep, xs[1..]);
      assert xs == [xs[0]] + xs[1..];
      assert multiset(xs) == multiset([xs[0]]) + multiset(xs[1..]);
      if keep(xs[0]) then
        var r := [xs[0]] + rest;
        assert r[1..] == rest;
        r
      else
        rest
  }

  /** getMissingIngredients. Without an available list (absent or empty) it
      declines to judge and returns nothing. Otherwise the result is a
      subsequence of the recipe list, in the original spelling, holding each
      missing entry exactly as often as the recipe does and every other entry
      not at all. */
  function GetMissingIngredients(recipeIngredients: seq<string>, availableIngredients: Option<seq<string>>): (r: seq<string>)
    ensures availableIngredients.None? || availableIngredients.value == [] ==> r == []
    ensures IsSubsequence(r, recipeIngredients)
    ensures availableIngredients.Some? && availableIngredients.value != [] ==>
              forall x :: multiset(r)[x] == if IsMissing(x, NormalizedSet(availableIngredients.value)) then multiset(recipeIngredients)[x] else 0
  {
    if availableIngredients.None? || |availableIngredients.value| == 0 then []
    else
      var availableSet := NormalizedSet(availableIngredients.value);
      Filter(ingredient => IsMissing(ingredient, availableSet), recipeIngredients)
  }

  // ---------------------------------------------------------------------------
  // Properties of the matcher, stated over its inputs
  // ---------------------------------------------------------------------------

  /** With a non-empty available list, an entry is reported exactly when it
      is in the recipe and the filter's verdict on it is "missing". */
  lemma ReportedIffMissing(recipe: seq<string>, available: seq<string>, x: string)
    requires available != []
    ensures x in GetMissingIngredients(recipe, Some(available)) <==> x in recipe && IsMissing(x, NormalizedSet(available))
  {
    var r := GetMissingIngredients(recipe, Some(available));
    assert x in r <==> multiset(r)[x] > 0;
    assert x in recipe <==> multiset(recipe)[x] > 0;
  }

  /** The containment test against the available set is the containment
      test against some normalized entry of the available list. */
  lemma MatchesSomeAvailableIff(normalized: string, available: seq<string>)
    ensures MatchesSomeAvailable(normalized, NormalizedSet(available)) <==>
              exists j :: 0 <= j < |available| && IncludesEitherWay(normalized, NormalizeIngredientName(available[j]))
  {
    var s := NormalizedSet(available);
    if MatchesSomeAvailable(normalized, s) {
      var a :| a in s && IncludesEitherWay(normalized, a);
      var j :| 0 <= j < |available| && NormalizeIngredientName(available[j]) == a;
    }
    if exists j :: 0 <= j < |available| && IncludesEitherWay(normalized, NormalizeIngredientName(available[j])) {
      var j :| 0 <= j < |available| && IncludesEitherWay(normalized, NormalizeIngredientName(available[j]));
      assert NormalizeIngredientName(available[j]) in s;
    }
  }

  /** With a non-empty available list, an entry is reported exactly when it
      is in the recipe, is not excluded, equals no normalized available name
      and contains, or is contained in, none of them. */
  lemma MissingCharacterisation(recipe: seq<string>, available: seq<string>, x: string)
    requires available != []
    ensures x in GetMissingIngredients(recipe, Some(available)) <==>
              && x in recipe
              && !IsExcluded(NormalizeIngredientName(x))
              && !(exists j :: 0 <= j < |available| && NormalizeIngredientName(available[j]) == NormalizeIngredientName(x))
              && !(exists j :: 0 <= j < |available| && IncludesEitherWay(NormalizeIngredientName(x), NormalizeIngredientName(available[j])))
  {
    ReportedIffMissing(recipe, available, x);
    MatchesSomeAvailableIff(NormalizeIngredientName(x), available);
  }

  /** A recipe entry whose normalized name equals a normalized available
      name is never reported. */
  lemma ExactMatchNeverMissing(recipe: seq<string>, available: seq<string>, x: string, j: int)
    requires 0 <= j < |available|
    requires NormalizeIngredientName(available[j]) == NormalizeIngredientName(x)
    ensures x !in GetMissingIngredients(recipe, Some(available))
  {
    MissingCharacterisation(recipe, available, x);
  }

  /** A recipe entry whose normalized name contains, or is contained in, a
      normalized available name is never reported. */
  lemma ContainmentNeverMissing(recipe: seq<string>, available: seq<string>, x: string, j: int)
    requires 0 <= j < |available|
    requires IncludesEitherWay(NormalizeIngredientName(x), NormalizeIngredientName(available[j]))
    ensures x !in GetMissingIngredients(recipe, Some(available))
  {
    MissingCharacterisation(recipe, available, x);
  }

  /** A recipe entry whose normalized name contains, or is contained in,
      an exclusion entry is never reported, whatever the available list. */
  lemma ExcludedNeverMissing(recipe: seq<string>, available: Option<seq<string>>, x: string)
    requires IsExcluded(NormalizeIngredientName(x))
    ensures x !in GetMissingIngredients(recipe, available)
  {
    var r := GetMissingIngredients(recipe, available);
    assert x in r ==> multiset(r)[x] > 0;
  }

  /** The converse of the suppression lemmas: with a non-empty available
      list, a recipe entry that is not excluded and neither contains nor is
      contained in any normalized available name is reported. */
  lemma UnmatchedIsReported(recipe: seq<string>, available: seq<string>, x: string)
    requires available != [] && x in recipe
    requires !IsExcluded(NormalizeIngredientName(x))
    requires forall j :: 0 <= j < |available| ==> !IncludesEitherWay(NormalizeIngredientName(x), NormalizeIngredientName(available[j]))
    ensures x in GetMissingIngredients(recipe, Some(available))
  {
    var n, availableSet := NormalizeIngredientName(x), NormalizedSet(available);
    MatchesSomeAvailableIff(n, available);
    if n in availableSet {
      ExactMatchIsContainment(n, availableSet);
    }
    ReportedIffMissing(recipe, available, x);
  }

  /** With a non-empty available list, nothing is reported exactly when no
      recipe entry is reported. */
  lemma NoneMissingIff(recipe: seq<string>, available: seq<string>)
    requires available != []
    ensures GetMissingIngredients(recipe, Some(available)) == [] <==>
              forall i :: 0 <= i < |recipe| ==> recipe[i] !in GetMissingIngredients(recipe, Some(available))
  {
    var r := GetMissingIngredients(recipe, Some(available));
    if r != [] {
      ReportedIffMissing(recipe, available, r[0]);
      var i :| 0 <= i < |recipe| && recipe[i] == r[0];
      assert recipe[i] in r;
    }
  }

  /** A one-entry recipe has nothing missing exactly when its entry is not
      reported. */
  lemma SingleNotMissing(a: string, available: seq<string>)
    requires available != []
    ensures GetMissingIngredients([a], Some(available)) == [] <==> a !in GetMissingIngredients([a], Some(available))
  {
    NoneMissingIff([a], available);
  }

  /** A two-entry recipe has nothing missing exactly when neither entry is
      reported. */
  lemma PairNotMissing(a: string, b: string, available: seq<string>)
    requires available != []
    ensures GetMissingIngredients([a, b], Some(available)) == [] <==>
              a !in GetMissingIngredients([a, b], Some(available)) && b !in GetMissingIngredients([a, b], Some(available))
  {
    NoneMissingIff([a, b], available);
  }

  /** An empty or whitespace-only recipe entry is never reported, whatever
      the available list: its normalized name is empty, and every exclusion
      entry contains the empty string. */
  lemma BlankNeverMissing(recipe: seq<string>, available: Option<seq<string>>, x: string)
    requires AllWhitespace(x)
    ensures x !in GetMissingIngredients(recipe, available)
  {
    BlankNormalizesToEmpty(x);
    assert |ExcludedIngredients()| == |StoredExclusions()| > 0;
    var e := ExcludedIngredients()[0];
    IncludesEmpty(e);
    assert IncludesEitherWay([], e);
    ExcludedNeverMissing(recipe, available, x);
  }

  /** An exclusion entry holding a katakana letter of the folded range is
      never contained in a normalized name (normalization removes every such
      letter); it can only exclude names that are part of it. */
  lemma KatakanaEntryNeverContained(ingredient: string, entry: string, k: int)
    requires 0 <= k < |entry| && IsFoldedKatakana(entry[k])
    ensures !Includes(NormalizeIngredientName(ingredient), entry)
  {
    var n := NormalizeIngredientName(ingredient);
    if Includes(n, entry) {
      IncludesChars(n, entry, k);
      assert false;
    }
  }

  /** Lower-casing keeps every exclusion entry short and led by `b` or a
      non-ASCII character. */
  lemma ExcludedIngredientsShape()
    ensures forall i :: 0 <= i < |ExcludedIngredients()| ==> ShortNonAsciiLed(ExcludedIngredients()[i])
  {
    StoredExclusionsShape();
    forall i | 0 <= i < |ExcludedIngredients()|
      ensures ShortNonAsciiLed(ExcludedIngredients()[i])
    {
      assert ExcludedIngredients()[i][0] == LowerChar(StoredExclusions()[i][0]);
    }
  }

  /** A name longer than nine characters, made of lower-case ASCII letters
      other than `b`, is excluded by no entry: no entry can hold it, and it
      holds no entry's first character. */
  lemma PlainAsciiNameNotExcluded(normalized: string)
    requires |normalized| > 9 && IsAsciiLowerWord(normalized) && 'b' !in normalized
    ensures !IsExcluded(normalized)
  {
    ExcludedIngredientsShape();
    forall i | 0 <= i < |ExcludedIngredients()|
      ensures !IncludesEitherWay(normalized, ExcludedIngredients()[i])
    {
      var e := ExcludedIngredients()[i];
      NotIncludesLonger(e, normalized);
      NotIncludesForeignChar(normalized, e, 0);
    }
  }

  /** A stored exclusion entry with no whitespace at either end and, once
      lower-cased, no katakana of the folded range excludes the very name it
      lists: that name normalizes to the entry. */
  lemma EntryExcludesItself(i: int)
    requires 0 <= i < |StoredExclusions()| && Trimmed(StoredExclusions()[i])
    requires forall k :: 0 <= k < |ExcludedIngredients()[i]| ==> !IsFoldedKatakana(ExcludedIngredients()[i][k])
    ensures NormalizeIngredientName(StoredExclusions()[i]) == ExcludedIngredients()[i]
    ensures IsExcluded(NormalizeIngredientName(StoredExclusions()[i]))
  {
    var s, e := StoredExclusions()[i], ExcludedIngredients()[i];
    TrimOfTrimmed(s);
    KatakanaToHiraganaOfUnfolded(e);
    IncludesSelf(e);
    assert IncludesEitherWay(NormalizeIngredientName(s), e);
  }

  /** The counterpart for the stored spellings that keep a katakana letter
      of the folded range once lower-cased: the exclusion entry made from such
      a spelling does not exclude the name it spells, which normalizes to a
      different string of the same length. */
  lemma KatakanaEntryMissesItself(stored: string, k: int)
    requires Trimmed(stored)
    requires 0 <= k < |stored| && IsFoldedKatakana(Lower(stored)[k])
    ensures !IncludesEitherWay(NormalizeIngredientName(stored), Lower(stored))
  {
    var e := Lower(stored);
    NormalizeOfTrimmed(stored);
    KatakanaToHiraganaChanges(e, k);
    KatakanaEntryNeverContained(stored, e, k);
    IncludesOtherOfSameLength(e, NormalizeIngredientName(stored));
  }

  // ---------------------------------------------------------------------------
  // Worked cases
  // ---------------------------------------------------------------------------

  /** The stored entry コンソメ is kept in katakana. */
  lemma ConsommeEntryStored()
    ensures ExcludedIngredients()[30] == "コンソメ"
  {
    assert StoredExclusions()[30] == "コンソメ";
    LowerOfLower("コンソメ");
  }

  lemma ConsommeFolded()
    ensures KatakanaToHiragana("コンソメ") == "こんそめ"
  {
  }

  /** The name コンソメ normalizes to こんそめ. */
  lemma ConsommeNormalized()
    ensures NormalizeIngredientName("コンソメ") == "こんそめ"
  {
    NormalizeClean("コンソメ");
    ConsommeFolded();
  }

  /** The stored entry コンソメ does not exclude the very name it lists:
      neither it nor the normalized name こんそめ contains the other. */
  lemma ConsommeEntryMissesItself()
    ensures !IncludesEitherWay(NormalizeIngredientName("コンソメ"), ExcludedIngredients()[30])
  {
    ConsommeEntryStored();
    LowerOfLower("コンソメ");
    KatakanaEntryMissesItself("コンソメ", 0);
  }

  /** The stored entry ネギ分 is kept in katakana. */
  lemma GreenOnionEntryStored()
    ensures ExcludedIngredients()[34] == "ネギ分"
  {
    assert StoredExclusions()[34] == "ネギ分";
    LowerOfLower("ネギ分");
  }

  /** The stored entry ネギ分 does not exclude the spelling it lists, although
      the comment beside it says that spelling is excluded: the name
      normalizes to ねぎ分, and neither string contains the other. */
  lemma GreenOnionEntryMissesItself()
    ensures !IncludesEitherWay(NormalizeIngredientName("ネギ分"), ExcludedIngredients()[34])
  {
    GreenOnionEntryStored();
    LowerOfLower("ネギ分");
    KatakanaEntryMissesItself("ネギ分", 0);
  }

  /** The prolonged sound mark ー (U+30FC) lies outside the folded range and
      is kept: カレールー normalizes to かれーるー. */
  lemma ProlongedSoundMarkKept()
    ensures NormalizeIngredientName("カレールー") == "かれーるー"
  {
    NormalizeClean("カレールー");
    CurryRouxFolded();
  }

  lemma CurryRouxFolded()
    ensures KatakanaToHiragana("カレールー") == "かれーるー"
  {
  }

  /** Lower-casing is the only change made to the stored list: the
      fullwidth entry ＢＰ is kept as ｂｐ, not as ASCII bp. */
  lemma FullwidthEntryLowered()
    ensures ExcludedIngredients()[66] == "ｂｐ" && ExcludedIngredients()[67] == "bp"
  {
    assert StoredExclusions()[66] == "ＢＰ";
    assert StoredExclusions()[67] == "bp";
    LowerOfLower("bp");
  }

  /** 塩 (salt) is stored as the fourth exclusion entry. */
  lemma SaltEntryStored()
    ensures ExcludedIngredients()[3] == "塩"
  {
    assert StoredExclusions()[3] == "塩";
    LowerOfLower("塩");
  }

  /** 塩 normalizes to itself. */
  lemma SaltNormalized()
    ensures NormalizeIngredientName("塩") == "塩"
  {
    NormalizeClean("塩");
    SaltFolded();
  }

  /** 塩 (salt) is excluded by its own entry. */
  lemma SaltIsExcluded()
    ensures IsExcluded(NormalizeIngredientName("塩"))
  {
    SaltEntryStored();
    assert StoredExclusions()[3] == "塩";
    EntryExcludesItself(3);
  }

  /** 塩 is never reported missing, whatever the lists. */
  lemma SaltNeverMissing(recipe: seq<string>, available: Option<seq<string>>, salt: string)
    requires salt == "塩"
    ensures salt !in GetMissingIngredients(recipe, available)
  {
    SaltIsExcluded();
    ExcludedNeverMissing(recipe, available, salt);
  }

  lemma SaltFolded()
    ensures KatakanaToHiragana("塩") == "塩"
  {
  }

  /** A listed seasoning and an exactly available ingredient are both
      suppressed: with 卵 (egg) available, neither 塩 (salt) nor 卵 is
      missing from the recipe [塩, 卵]. */
  lemma SaltAndEggExample(salt: string, egg: string)
    requires salt == "塩" && egg == "卵"
    ensures GetMissingIngredients([salt, egg], Some([egg])) == []
  {
    SaltNeverMissing([salt, egg], Some([egg]), salt);
    ExactMatchNeverMissing([salt, egg], [egg], egg, 0);
    PairNotMissing(salt, egg, [egg]);
  }

  /** A true miss is reported: with only egg available, cauliflower is
      missing. No exclusion entry is contained in it or holds it, and it and
      egg do not contain each other. */
  lemma TrueMissReported(name: string, egg: string)
    requires name == "cauliflower" && egg == "egg"
    ensures name in GetMissingIngredients([name], Some([egg]))
  {
    CauliflowerShape(name);
    EggShape(egg);
    PlainWordMissing(name, egg, 1);
  }

  /** A long lower-case ASCII name without `b`, checked against one shorter
      lower-case ASCII word holding a letter the name lacks, is reported. */
  lemma PlainWordMissing(name: string, other: string, k: int)
    requires |name| > 9 && IsAsciiLowerWord(name) && 'b' !in name
    requires IsAsciiLowerWord(other) && |other| < |name|
    requires 0 <= k < |other| && other[k] !in name
    ensures name in GetMissingIngredients([name], Some([other]))
  {
    PlainWordNotExcluded(name);
    PlainWordsUnmatched(name, other, k);
    UnmatchedOfOneIsReported(name, other);
  }

  lemma PlainWordNotExcluded(name: string)
    requires |name| > 9 && IsAsciiLowerWord(name) && 'b' !in name
    ensures !IsExcluded(NormalizeIngredientName(name))
  {
    AsciiLowerWordNormalized(name);
    PlainAsciiNameNotExcluded(name);
  }

  lemma PlainWordsUnmatched(name: string, other: string, k: int)
    requires IsAsciiLowerWord(name) && IsAsciiLowerWord(other) && |other| < |name|
    requires 0 <= k < |other| && other[k] !in name
    ensures !IncludesEitherWay(NormalizeIngredientName(name), NormalizeIngredientName(other))
  {
    AsciiLowerWordNormalized(name);
    AsciiLowerWordNormalized(other);
    NotIncludesForeignChar(name, other, k);
    NotIncludesLonger(other, name);
  }

  /** Against a single available name, an entry that is not excluded and
      that name do not contain each other is missing. */
  lemma MissingAgainstOne(name: string, available: string)
    requires !IsExcluded(NormalizeIngredientName(name))
    requires !IncludesEitherWay(NormalizeIngredientName(name), available)
    ensures IsMissing(name, {available})
  {
    IncludesSelf(available);
  }

  /** A one-entry recipe checked against one available name: the entry is
      reported when it is not excluded and it and that name do not contain
      each other. */
  lemma UnmatchedOfOneIsReported(name: string, other: string)
    requires !IsExcluded(NormalizeIngredientName(name))
    requires !IncludesEitherWay(NormalizeIngredientName(name), NormalizeIngredientName(other))
    ensures name in GetMissingIngredients([name], Some([other]))
  {
    MissingAgainstOne(name, NormalizeIngredientName(other));
    NormalizedSetOfOne(other);
    ReportedIffMissing([name], [other], name);
  }

  lemma CauliflowerShape(name: string)
    requires name == "cauliflower"
    ensures IsAsciiLowerWord(name) && |name| == 11 && 'b' !in name && 'g' !in name
  {
  }

  lemma EggShape(egg: string)
    requires egg == "egg"
    ensures IsAsciiLowerWord(egg) && |egg| == 3 && egg[1] == 'g'
  {
  }

  /** 豚バラ肉 (pork belly meat) normalizes to 豚ばら肉. */
  lemma PorkBellyMeatNormalized()
    ensures NormalizeIngredientName("豚バラ肉") == "豚ばら肉"
  {
    NormalizeClean("豚バラ肉");
    PorkBellyMeatFolded();
  }

  lemma PorkBellyMeatFolded()
    ensures KatakanaToHiragana("豚バラ肉") == "豚ばら肉"
  {
  }

  /** 豚バラ (pork belly) normalizes to 豚ばら. */
  lemma PorkBellyNormalized()
    ensures NormalizeIngredientName("豚バラ") == "豚ばら"
  {
    NormalizeClean("豚バラ");
    PorkBellyFolded();
  }

  lemma PorkBellyFolded()
    ensures KatakanaToHiragana("豚バラ") == "豚ばら"
  {
  }

  /** Containment tolerates naming variants: 豚バラ肉 is not missing when
      豚バラ is available. */
  lemma PorkBellyExample(meat: string, belly: string)
    requires meat == "豚バラ肉" && belly == "豚バラ"
    ensures GetMissingIngredients([meat], Some([belly])) == []
  {
    PorkBellyContained();
    ContainmentNeverMissing([meat], [belly], meat, 0);
    SingleNotMissing(meat, [belly]);
  }

  /** The normalized 豚バラ肉 contains the normalized 豚バラ. */
  lemma PorkBellyContained()
    ensures IncludesEitherWay(NormalizeIngredientName("豚バラ肉"), NormalizeIngredientName("豚バラ"))
  {
    PorkBellyMeatNormalized();
    PorkBellyNormalized();
    assert IsPrefix("豚ばら", "豚ばら肉");
  }
}
