/**
 * The character tables both scoring heuristics consult, and the Python
 * membership tests they apply to them.
 */
module Lexicon {
  import opened Text

  /** Visually confusable pairs (each maps to its look-alike, both ways). */
  const SimilarPairs: map<char, char> := map[
    '已' := '己', '己' := '已', '日' := '目', '目' := '日',
    '天' := '夭', '夭' := '天', '人' := '入', '入' := '人',
    '木' := '未', '未' := '木', '土' := '士', '士' := '土',
    '刀' := '力', '力' := '刀', '几' := '儿', '儿' := '几',
    '马' := '鸟', '鸟' := '马', '千' := '干', '干' := '千',
    '王' := '主', '主' := '王', '由' := '田', '田' := '由']

  /** Homophone pairs. */
  const PhoneticPairs: map<char, char> := map[
    '的' := '得', '得' := '的', '在' := '再', '再' := '在',
    '做' := '作', '作' := '做', '像' := '象', '象' := '像',
    '以' := '已', '已' := '以', '那' := '哪', '哪' := '那']

  /** Traditional or Japanese forms and their simplified form. */
  const TraditionalSimplified: map<char, char> := map[
    '実' := '实', '発' := '发', '図' := '图', '対' := '对',
    '説' := '说', '経' := '经', '學' := '学', '師' := '师']

  /** The six punctuation marks of the replacement heuristic. */
  const Punctuation: string := "，。！？；："

  /**
   * The punctuation string of the omission heuristics: the Python literal
   * is an implicit concatenation of two literals, the first ending in two
   * ASCII double quotes, so the quotes contribute those two characters and
   * nothing else.
   */
  const OmissionPunctuation: string := "，。！？；：\"\"（）【】"

  /** Characters that are often themselves the wrong glyph. */
  const CommonErrors: string := "己日目天人入木未土士刀力几儿马鸟千干王主由田"

  /** Particles that are often left out. */
  const CommonOmissions: seq<string> := ["了", "的", "地", "得", "着", "呢", "吗", "吧", "过", "来", "去", "与", "和"]

  /** Adverbs that are often left out. */
  const AuxiliaryWords: seq<string> := ["就", "也", "还", "都", "才", "又", "再", "只", "已", "便"]

  /** Two-character words that are often left out. */
  const CommonPhrases: seq<string> := ["一些", "一个", "一下", "可以", "应该", "能够", "需要", "必须"]

  /** `original in table and corrected == table[original]` for a string original. */
  predicate TablePair(table: map<char, char>, original: string, corrected: string)
  {
    |original| == 1 && original[0] in table && corrected == [table[original[0]]]
  }

  /** `(o.isdigit() and c.isdigit()) or (o.isalpha() and c.isalpha())`. */
  predicate SameClass(original: string, corrected: string)
  {
    (IsDigits(original) && IsDigits(corrected)) || (IsAlphas(original) && IsAlphas(corrected))
  }

  /** `0.2 * n < pos < 0.8 * n`, by cross-multiplication. */
  predicate Central(pos: nat, n: nat)
  {
    n < 5 * pos && 5 * pos < 4 * n
  }

  /** `0.1 * n < pos < 0.9 * n`, by cross-multiplication. */
  predicate Inner(pos: nat, n: nat)
  {
    n < 10 * pos && 10 * pos < 9 * n
  }

  /** 已 is the only character with a look-alike and also a homophone or a simplified form. */
  lemma OnlySharedKey(c: char)
    requires c in SimilarPairs
    requires c in PhoneticPairs || c in TraditionalSimplified
    ensures c == '已'
  {
    if c in TraditionalSimplified {
      NoSimplifiedLookAlike(c);
    } else {
      SharedHomophone(c);
    }
  }

  /** 已 is the only character with a look-alike and a homophone. */
  lemma SharedHomophone(c: char)
    requires c in SimilarPairs && c in PhoneticPairs
    ensures c == '已'
  {
    PhoneticKeys(c);
    SimilarKeys(c);
  }

  /** The keys of the look-alike table, written out. */
  lemma SimilarKeys(c: char)
    requires c in SimilarPairs
    ensures c == '已' || c == '己' || c == '日' || c == '目' || c == '天' || c == '夭'
         || c == '人' || c == '入' || c == '木' || c == '未' || c == '土' || c == '士'
         || c == '刀' || c == '力' || c == '几' || c == '儿' || c == '马' || c == '鸟'
         || c == '千' || c == '干' || c == '王' || c == '主' || c == '由' || c == '田'
  {
  }

  /** The keys of the homophone table, written out. */
  lemma PhoneticKeys(c: char)
    requires c in PhoneticPairs
    ensures c == '的' || c == '得' || c == '在' || c == '再' || c == '做' || c == '作'
         || c == '像' || c == '象' || c == '以' || c == '已' || c == '那' || c == '哪'
  {
  }

  /** The keys of the traditional-form table, written out. */
  lemma TraditionalKeys(c: char)
    requires c in TraditionalSimplified
    ensures c == '実' || c == '発' || c == '図' || c == '対' || c == '説' || c == '経' || c == '學' || c == '師'
  {
  }

  /** No traditional form has a look-alike. */
  lemma NoSimplifiedLookAlike(c: char)
    requires c in TraditionalSimplified
    ensures c !in SimilarPairs
  {
    TraditionalKeys(c);
    if c in SimilarPairs {
      SimilarKeys(c);
      assert false;
    }
  }

  /** No character is both a visual and a phonetic partner of the same original: the two bonuses never add up. */
  lemma VisualAndPhoneticExclusive(original: string, corrected: string)
    ensures !(TablePair(SimilarPairs, original, corrected) && TablePair(PhoneticPairs, original, corrected))
  {
    if |original| == 1 && original[0] in SimilarPairs && original[0] in PhoneticPairs {
      OnlySharedKey(original[0]);
    }
  }

  /** Only 已 has both a look-alike and another partner: 己 and the homophone 以. */
  lemma DoublePartner(original: char, visual: string, other: string)
    requires TablePair(SimilarPairs, [original], visual)
    requires TablePair(PhoneticPairs, [original], other) || TablePair(TraditionalSimplified, [original], other)
    ensures original == '已' && visual == "己" && other == "以"
  {
    OnlySharedKey(original);
    assert '已' !in TraditionalSimplified;
  }

  /** The table entries of 已: the look-alike 己 and the homophone 以, no simplified form, and it is no punctuation mark. */
  lemma YiPartners()
    ensures TablePair(SimilarPairs, "已", "己") && !TablePair(SimilarPairs, "已", "以")
    ensures TablePair(PhoneticPairs, "已", "以") && !TablePair(PhoneticPairs, "已", "己")
    ensures '已' !in TraditionalSimplified && '已' !in Punctuation
  {
  }

  /** The commonly misread characters are all CJK ideographs. */
  lemma CommonErrorsAreCjk(c: char)
    requires c in CommonErrors
    ensures IsCjk(c)
  {
  }

  /** No punctuation mark is a commonly misread character. */
  lemma PunctuationNotCommonError(c: char)
    requires c in Punctuation
    ensures c !in CommonErrors
  {
    if c in CommonErrors {
      CommonErrorsAreCjk(c);
      assert false;
    }
  }

  /** The common particles are single CJK ideographs. */
  lemma ParticlesAreIdeographs(s: string)
    requires s in CommonOmissions
    ensures |s| == 1 && IsCjk(s[0])
  {
  }

  /** No mark of the omission punctuation string is a CJK ideograph. */
  lemma OmissionPunctuationNotCjk(c: char)
    requires c in OmissionPunctuation
    ensures !IsCjk(c)
  {
  }

  /** The punctuation marks are neither letters nor digits. */
  lemma PunctuationNotAlpha(s: string)
    requires |s| == 1 && s[0] in Punctuation
    ensures !IsAlphas(s) && !IsDigits(s)
  {
  }
}
