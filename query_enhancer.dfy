/** The deterministic paths of the search-query enhancer (src/lib/search.ts):
    `formatDate`, the fast path for short plain queries, the identity
    result without an API key, and the identity fallback when the model
    call or the decoding of its answer fails. The language model is the
    oracle `generate`, `JSON.parse` the oracle `decode`. */
module QueryEnhancer {
  import opened Wrappers
  import opened JsStrings
  import opened SeqUtil
  import Arxiv

  // ---------------------------------------------------------------------
  // formatDate

  /** `formatDate` of a date whose local calendar fields are `year`,
      `month` (1-12) and `day` (1-31). */
  function FormatDate(year: int, month: int, day: int): (r: string)
    requires 1 <= month <= 12 && 1 <= day <= 31
  {
    IntToString(year) + PadStart(NatToString(month), 2, '0') + PadStart(NatToString(day), 2, '0')
  }

  lemma NatToStringLength4(n: nat)
    requires 1000 <= n <= 9999
    ensures |NatToString(n)| == 4
  {
    assert NatToString(n) == NatToString(n / 10) + [DigitChar(n % 10)];
    assert NatToString(n / 10) == NatToString(n / 100) + [DigitChar(n / 10 % 10)];
    assert NatToString(n / 100) == NatToString(n / 1000) + [DigitChar(n / 100 % 10)];
  }

  lemma DigitRoundTrip(d: nat)
    requires d < 10
    ensures DigitValue(DigitChar(d)) == d
  {
  }

  lemma TwoCharValue(a: char, b: char)
    requires IsDigit(a) && IsDigit(b)
    ensures DigitsValue([a, b]) == DigitValue(a) * 10 + DigitValue(b)
  {
    assert [a, b][..1] == [a];
    assert [a][..0] == [];
    assert DigitsValue([a]) == DigitsValue([]) * 10 + DigitValue(a);
    assert DigitsValue([a, b]) == DigitsValue([a]) * 10 + DigitValue(b);
  }

  lemma TwoDigitsText(n: nat)
    requires 1 <= n <= 31
    ensures PadStart(NatToString(n), 2, '0') == [DigitChar(n / 10), DigitChar(n % 10)]
  {
    if n >= 10 {
      assert NatToString(n) == NatToString(n / 10) + [DigitChar(n % 10)];
    }
  }

  /** A month or day number written as two digits. */
  lemma TwoDigits(n: nat)
    requires 1 <= n <= 31
    ensures var s := PadStart(NatToString(n), 2, '0');
            |s| == 2 && AllDigits(s) && DigitsValue(s) == n
  {
    var hi, lo := n / 10, n % 10;
    TwoDigitsText(n);
    DigitRoundTrip(hi);
    DigitRoundTrip(lo);
    TwoCharValue(DigitChar(hi), DigitChar(lo));
    assert n == hi * 10 + lo;
  }

  /** The three fields of a YYYYMMDD string are where the slices look. */
  lemma SlicesOfDate(y: string, m: string, d: string)
    requires |y| == 4 && |m| == 2 && |d| == 2
    ensures Slice(y + m + d, 0, 4) == y
    ensures Slice(y + m + d, 4, 6) == m
    ensures Slice(y + m + d, 6, 8) == d
  {
    var s := y + m + d;
    assert s[0..4] == y;
    assert s[4..6] == m;
    assert s[6..8] == d;
  }

  /** The three digit groups a date with a four-digit year is made of. */
  lemma DateGroups(year: int, month: int, day: int) returns (y: string, m: string, d: string)
    requires 1000 <= year <= 9999 && 1 <= month <= 12 && 1 <= day <= 31
    ensures FormatDate(year, month, day) == y + m + d
    ensures |y| == 4 && |m| == 2 && |d| == 2
    ensures AllDigits(y) && AllDigits(m) && AllDigits(d)
    ensures DigitsValue(y) == year && DigitsValue(m) == month && DigitsValue(d) == day
  {
    y := NatToString(year);
    m := PadStart(NatToString(month), 2, '0');
    d := PadStart(NatToString(day), 2, '0');
    NatToStringLength4(year);
    NatToStringRoundTrip(year);
    TwoDigits(month);
    TwoDigits(day);
  }

  /** For a four-digit year the date is eight digits, YYYYMMDD, and the
      arXiv adapter's reading of a YYYYMMDD string gives back exactly the
      year, month and day it was made from. */
  lemma FormatDateRoundTrip(year: int, month: int, day: int)
    requires 1000 <= year <= 9999 && 1 <= month <= 12 && 1 <= day <= 31
    ensures |FormatDate(year, month, day)| == 8 && AllDigits(FormatDate(year, month, day))
    ensures Arxiv.DayFields(FormatDate(year, month, day)) == (Some(year), Some(month), Some(day))
  {
    var y, m, d := DateGroups(year, month, day);
    var date := y + m + d;
    assert AllDigits(date) by {
      forall k | 0 <= k < |date| ensures IsDigit(date[k]) {
        if k < 4 {
          assert date[k] == y[k];
        } else if k < 6 {
          assert date[k] == m[k - 4];
        } else {
          assert date[k] == d[k - 6];
        }
      }
    }
    SlicesOfDate(y, m, d);
    ParseIntOfDigits(y);
    ParseIntOfDigits(m);
    ParseIntOfDigits(d);
  }

  // ---------------------------------------------------------------------
  // enhanceSearchQuery

  /** `dateFilter` of an enhanced query. */
  datatype DateFilter = DateFilter(startDate: string, endDate: string, description: string)

  /** `EnhancedSearchQuery`. */
  datatype EnhancedQuery = EnhancedQuery(
    originalQuery: string,
    englishKeywords: seq<string>,
    searchQuery: string,
    suggestedCategory: Option<string>,
    dateFilter: Option<DateFilter>)

  /** The fields of the model's decoded JSON answer that the enhancer
      reads; `None` for an absent or `null` field. */
  datatype ModelAnswer = ModelAnswer(
    englishKeywords: Option<seq<string>>,
    searchQuery: Option<string>,
    suggestedCategory: Option<string>,
    dateFilter: Option<DateFilter>)

  /** A character of the class `[a-zA-Z0-9\s\-_.,:;'"!?()]`. */
  predicate IsPlainQueryChar(c: char) {
    ('a' <= c <= 'z') || ('A' <= c <= 'Z') || IsDigit(c) || IsSpace(c) || c in "-_.,:;'\"!?()"
  }

  /** `/^[a-zA-Z0-9\s\-_.,:;'"!?()]+$/.test(query)`. */
  predicate IsEnglishOnly(query: string) {
    query != [] && forall k :: 0 <= k < |query| ==> IsPlainQueryChar(query[k])
  }

  /** The condition of the fast path: plain characters and at most five
      space-separated parts. */
  predicate TakesFastPath(query: string) {
    IsEnglishOnly(query) && |Split(query, ' ')| <= 5
  }

  predicate IsKeyword(w: string) {
    |w| > 2
  }

  /** `query.toLowerCase().split(' ')`. */
  function LowerWords(query: string): seq<string> {
    Split(ToLower(query), ' ')
  }

  /** The fast path's keywords: the lower-cased space-separated words
      longer than two characters, in their order. */
  function FastKeywords(query: string): (keywords: seq<string>)
    ensures forall i :: 0 <= i < |keywords| ==> |keywords[i]| > 2
    ensures IsSubsequence(keywords, LowerWords(query))
    ensures forall w :: w in LowerWords(query) && |w| > 2 ==> w in keywords
    ensures forall w :: multiset(keywords)[w] == if |w| > 2 then multiset(LowerWords(query))[w] else 0
  {
    var words := LowerWords(query);
    FilterKeepsPassing(words, IsKeyword);
    Filter(words, IsKeyword)
  }

  /** The result that leaves the query as it is. */
  function Identity(query: string): EnhancedQuery {
    EnhancedQuery(query, [query], query, None, None)
  }

  /** What the model's answer turns into: each field, or its default when
      the answer leaves it out or empty. */
  function FromAnswer(query: string, answer: ModelAnswer): (r: EnhancedQuery)
    ensures r.originalQuery == query
    ensures r.englishKeywords == (if answer.englishKeywords.Some? then answer.englishKeywords.value else [query])
    ensures r.searchQuery == (if answer.searchQuery.Some? && answer.searchQuery.value != "" then answer.searchQuery.value else query)
    ensures r.suggestedCategory.Some? ==> r.suggestedCategory.value != ""
  {
    EnhancedQuery(
      query,
      answer.englishKeywords.GetOr([query]),
      if answer.searchQuery.Some? && answer.searchQuery.value != "" then answer.searchQuery.value else query,
      if answer.suggestedCategory.Some? && answer.suggestedCategory.value != "" then answer.suggestedCategory else None,
      answer.dateFilter)
  }

  /** The model's text with the JSON and plain code fences removed, trimmed. */
  function CleanAnswerText(text: string): (r: string)
    ensures IsTrimmed(r) && |r| <= |text|
  {
    Trim(DeleteAll(DeleteAll(text, "```json"), "```"))
  }

  /** `enhanceSearchQuery`. */
  function EnhanceSearchQuery(
    query: string, hasApiKey: bool,
    generate: string -> Outcome<string>, decode: string -> Option<ModelAnswer>): (r: EnhancedQuery)
    ensures r.originalQuery == query
    ensures TakesFastPath(query) ==>
              r == EnhancedQuery(query, FastKeywords(query), query, None, None)
    ensures !TakesFastPath(query) && !hasApiKey ==> r == Identity(query)
    ensures !TakesFastPath(query) && hasApiKey && generate(query).Fail? ==> r == Identity(query)
    ensures (!TakesFastPath(query) && hasApiKey && generate(query).Ok? &&
             decode(CleanAnswerText(generate(query).value)).None?) ==> r == Identity(query)
    ensures (!TakesFastPath(query) && hasApiKey && generate(query).Ok? &&
             decode(CleanAnswerText(generate(query).value)).Some?) ==>
              r == FromAnswer(query, decode(CleanAnswerText(generate(query).value)).value)
    ensures query != "" ==> r.searchQuery != ""
  {
    if TakesFastPath(query) then EnhancedQuery(query, FastKeywords(query), query, None, None)
    else if !hasApiKey then Identity(query)
    else match generate(query)
      case Fail(_) => Identity(query)
      case Ok(text) =>
        match decode(CleanAnswerText(text))
        case None => Identity(query)
        case Some(answer) => FromAnswer(query, answer)
  }

  /** Only a model answer can change the query the adapters receive, and
      only by a non-empty replacement. */
  lemma SearchQueryChangesOnlyByModel(
    query: string, hasApiKey: bool,
    generate: string -> Outcome<string>, decode: string -> Option<ModelAnswer>)
    requires EnhanceSearchQuery(query, hasApiKey, generate, decode).searchQuery != query
    ensures !TakesFastPath(query) && hasApiKey && generate(query).Ok?
    ensures var answer := decode(CleanAnswerText(generate(query).value));
            answer.Some? && answer.value.searchQuery == Some(EnhanceSearchQuery(query, hasApiKey, generate, decode).searchQuery)
  {
  }

  /** A space-free plain word of at most two characters takes the fast
      path and yields no keywords. */
  lemma ShortWordHasNoKeywords(query: string)
    requires IsEnglishOnly(query) && |query| <= 2 && ' ' !in query
    ensures TakesFastPath(query)
    ensures EnhanceSearchQuery(query, true, _ => Fail(""), _ => None).englishKeywords == []
  {
    var lower := ToLower(query);
    ToLowerAt(query);
    assert ' ' !in lower by {
      forall k | 0 <= k < |lower| ensures lower[k] != ' ' {
        assert query[k] != ' ';
      }
    }
    assert multiset(query)[' '] == 0;
    assert multiset(lower)[' '] == 0;
    var parts := Split(lower, ' ');
    assert |parts| == 1 && Join(parts, ' ') == parts[0] == lower;
    assert Filter(parts, IsKeyword) == Filter(parts[1..], IsKeyword);
  }

  /** Six words never take the fast path: the model decides, or the
      identity stands. */
  lemma SixWordsLeaveTheFastPath(query: string)
    requires multiset(query)[' '] >= 5
    ensures !TakesFastPath(query)
  {
  }
}
