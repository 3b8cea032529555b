/** `detect_title`: whether a stripped line of a legal document reads as a heading. */
module Titles {
  import opened Strings

  const DefaultMinLength := 4
  const DefaultMaxLength := 50

  /** Openings of a heading: "about", "No. ..." and the first five Chinese enumerators. */
  const TitleStarters: seq<string> := ["关于", "第", "一、", "二、", "三、", "四、", "五、"]

  /** Endings of a regulation, opinion, notice or decision. */
  const TitleEnders: seq<string> := ["的规定", "的意见", "的通知", "的决定"]

  /** Case number, cause of action, plaintiff, defendant, trial court. */
  const LegalKeywords: seq<string> := ["案号", "案由", "原告", "被告", "审理法院"]

  /** The full-width comma, semicolon and colon, which only occur inside running text. */
  predicate HasClausePunctuation(text: string)
  {
    '，' in text || '；' in text || '：' in text
  }

  /** The loop over `prefixes` that returns as soon as one of them starts `text`. */
  predicate StartsWithAny(text: string, prefixes: seq<string>)
  {
    prefixes != [] && (StartsWith(text, prefixes[0]) || StartsWithAny(text, prefixes[1..]))
  }

  /** The loop over `suffixes` that returns as soon as one of them ends `text`. */
  predicate EndsWithAny(text: string, suffixes: seq<string>)
  {
    suffixes != [] && (EndsWith(text, suffixes[0]) || EndsWithAny(text, suffixes[1..]))
  }

  /** The loop over `keywords` that returns as soon as one of them occurs in `text`. */
  predicate ContainsAny(text: string, keywords: seq<string>)
  {
    keywords != [] && (Contains(text, keywords[0]) || ContainsAny(text, keywords[1..]))
  }

  /** `detect_title(text, min_length, max_length)`: a line is a heading when
      its length is in range, it has no clause punctuation, and it starts with
      a starter, ends with an ender, is upper case or mentions a legal keyword. */
  function DetectTitle(text: string, minLength: int, maxLength: int): (r: bool)
    ensures r ==> minLength <= |text| <= maxLength
    ensures r ==> '，' !in text && '；' !in text && '：' !in text
  {
    if minLength <= |text| <= maxLength then
      if !HasClausePunctuation(text) then
        if StartsWithAny(text, TitleStarters) then true
        else if EndsWithAny(text, TitleEnders) then true
        else if IsUpper(text) then true
        else if ContainsAny(text, LegalKeywords) then true
        else false
      else false
    else false
  }

  lemma {:induction false} StartsWithAnyIff(text: string, prefixes: seq<string>)
    ensures StartsWithAny(text, prefixes) <==>
            exists i :: 0 <= i < |prefixes| && StartsWith(text, prefixes[i])
  {
    if prefixes != [] {
      StartsWithAnyIff(text, prefixes[1..]);
      if i :| 0 < i < |prefixes| && StartsWith(text, prefixes[i]) {
        assert prefixes[1..][i - 1] == prefixes[i];
      }
    }
  }

  lemma {:induction false} EndsWithAnyIff(text: string, suffixes: seq<string>)
    ensures EndsWithAny(text, suffixes) <==>
            exists i :: 0 <= i < |suffixes| && EndsWith(text, suffixes[i])
  {
    if suffixes != [] {
      EndsWithAnyIff(text, suffixes[1..]);
      if i :| 0 < i < |suffixes| && EndsWith(text, suffixes[i]) {
        assert suffixes[1..][i - 1] == suffixes[i];
      }
    }
  }

  lemma {:induction false} ContainsAnyIff(text: string, keywords: seq<string>)
    ensures ContainsAny(text, keywords) <==>
            exists i :: 0 <= i < |keywords| && Contains(text, keywords[i])
  {
    if keywords != [] {
      ContainsAnyIff(text, keywords[1..]);
      if i :| 0 < i < |keywords| && Contains(text, keywords[i]) {
        assert keywords[1..][i - 1] == keywords[i];
      }
    }
  }

  /** The early-return loops of `detect_title` amount to one formula: the two
      guards, then any one of the four heading signs. */
  lemma DetectTitleIff(text: string, minLength: int, maxLength: int)
    ensures DetectTitle(text, minLength, maxLength) <==>
      minLength <= |text| <= maxLength &&
      '，' !in text && '；' !in text && '：' !in text &&
      ((exists s :: s in TitleStarters && StartsWith(text, s)) ||
       (exists e :: e in TitleEnders && EndsWith(text, e)) ||
       IsUpper(text) ||
       (exists k :: k in LegalKeywords && Contains(text, k)))
  {
    StartsWithAnyIff(text, TitleStarters);
    EndsWithAnyIff(text, TitleEnders);
    ContainsAnyIff(text, LegalKeywords);
  }

  /** With both guards met, the keywords count wherever they occur in the
      line, not only at its start. */
  lemma KeywordAnywhere(before: string, keyword: string, after: string, minLength: int, maxLength: int)
    requires keyword in LegalKeywords
    requires var text := before + keyword + after;
             minLength <= |text| <= maxLength && !HasClausePunctuation(text)
    ensures DetectTitle(before + keyword + after, minLength, maxLength)
  {
    var text := before + keyword + after;
    assert text[|before|..|before| + |keyword|] == keyword;
    ContainsIff(text, keyword);
    assert OccursAt(text, keyword, |before|);
    DetectTitleIff(text, minLength, maxLength);
  }
}
