/** The shared paper model of the portal (src/types/paper.ts): the two
    sources, the normalised `Paper` record both adapters produce, and the
    category-name tables with their lookup. */
module PaperTypes {
  import opened Wrappers

  /** `PaperSource`. */
  datatype Source = Arxiv | OpenReview

  /** The source's name as stored in the `source` columns and fields. */
  function SourceName(s: Source): string {
    match s
    case Arxiv => "arxiv"
    case OpenReview => "openreview"
  }

  /** An optional string read for its truthiness: present and non-empty. */
  predicate Truthy(s: Option<string>) {
    s.Some? && s.value != ""
  }

  /** `s || null`: an empty string is stored as `null` too. */
  function OrNull(s: Option<string>): (r: Option<string>)
    ensures r.Some? <==> Truthy(s)
    ensures r.Some? ==> r == s
  {
    if Truthy(s) then s else None
  }

  /** Instants in milliseconds since the epoch; the ISO-8601 strings the
      source passes around are identified with the instant they denote. */
  type Timestamp = int

  /** `Paper`: the record both adapters normalise into. */
  datatype Paper = Paper(
    source: Source,
    sourceId: string,
    sourceUrl: string,
    title: string,
    authors: seq<string>,
    abstractText: string,
    categories: seq<string>,
    publishedAt: Timestamp,
    updatedAt: Timestamp,
    pdfUrl: string,
    arxivId: Option<string>,
    arxivUrl: Option<string>)

  /** `AIAnalysis`. */
  datatype Analysis = Analysis(
    summary: string,
    keyPoints: seq<string>,
    methodology: string,
    contributions: seq<string>,
    limitations: seq<string>)

  /** `SearchParams.dateRange`: two YYYYMMDD strings. */
  datatype DateRange = DateRange(startDate: string, endDate: string)

  /** `SearchParams` as the adapters read it (the `source` field is the
      route's, not theirs). */
  datatype SearchParams = SearchParams(
    query: string,
    category: Option<string>,
    maxResults: Option<int>,
    start: Option<int>,
    dateRange: Option<DateRange>)

  /** What both search adapters resolve to: one page of papers and the
      number of hits they report. */
  datatype SearchResult = SearchResult(papers: seq<Paper>, total: int)

  /** `ARXIV_CATEGORIES`: the categories offered in the search form. */
  const ARXIV_CATEGORIES: seq<(string, string)> := [
      ("cs.AI", "인공지능"),
      ("cs.LG", "기계학습"),
      ("cs.CL", "자연어처리"),
      ("cs.CV", "컴퓨터비전"),
      ("cs.NE", "신경망"),
      ("cs.RO", "로보틱스"),
      ("stat.ML", "통계적 기계학습"),
      ("math.OC", "최적화")
  ]

  /** `CATEGORY_NAMES[categoryId]` read as an own property of the table:
      the display name of an arXiv category id, `None` for an id the table
      does not list. Every listed name is non-empty. */
  function CategoryNames(categoryId: string): (name: Option<string>)
    ensures name.Some? ==> name.value != ""
  {
    match categoryId
    case "cs.AI" => Some("인공지능")
    case "cs.AR" => Some("하드웨어 아키텍처")
    case "cs.CC" => Some("계산 복잡도")
    case "cs.CE" => Some("계산공학")
    case "cs.CG" => Some("계산기하학")
    case "cs.CL" => Some("자연어처리")
    case "cs.CR" => Some("암호학/보안")
    case "cs.CV" => Some("컴퓨터비전")
    case "cs.CY" => Some("사회와 컴퓨터")
    case "cs.DB" => Some("데이터베이스")
    case "cs.DC" => Some("분산컴퓨팅")
    case "cs.DL" => Some("디지털 라이브러리")
    case "cs.DM" => Some("이산수학")
    case "cs.DS" => Some("자료구조/알고리즘")
    case "cs.ET" => Some("신기술")
    case "cs.FL" => Some("형식언어")
    case "cs.GL" => Some("일반 문헌")
    case "cs.GR" => Some("그래픽스")
    case "cs.GT" => Some("게임이론")
    case "cs.HC" => Some("HCI")
    case "cs.IR" => Some("정보검색")
    case "cs.IT" => Some("정보이론")
    case "cs.LG" => Some("기계학습")
    case "cs.LO" => Some("논리학")
    case "cs.MA" => Some("멀티에이전트")
    case "cs.MM" => Some("멀티미디어")
    case "cs.MS" => Some("수학 소프트웨어")
    case "cs.NA" => Some("수치해석")
    case "cs.NE" => Some("신경망/진화연산")
    case "cs.NI" => Some("네트워킹")
    case "cs.OH" => Some("기타")
    case "cs.OS" => Some("운영체제")
    case "cs.PF" => Some("성능")
    case "cs.PL" => Some("프로그래밍언어")
    case "cs.RO" => Some("로보틱스")
    case "cs.SC" => Some("기호연산")
    case "cs.SD" => Some("사운드")
    case "cs.SE" => Some("소프트웨어공학")
    case "cs.SI" => Some("소셜네트워크")
    case "cs.SY" => Some("시스템제어")
    case "stat.AP" => Some("통계응용")
    case "stat.CO" => Some("통계계산")
    case "stat.ME" => Some("통계방법론")
    case "stat.ML" => Some("통계적 기계학습")
    case "stat.OT" => Some("통계기타")
    case "stat.TH" => Some("통계이론")
    case "math.AC" => Some("가환대수")
    case "math.AG" => Some("대수기하")
    case "math.AP" => Some("해석학")
    case "math.AT" => Some("대수적 위상")
    case "math.CA" => Some("고전해석")
    case "math.CO" => Some("조합론")
    case "math.CT" => Some("범주론")
    case "math.CV" => Some("복소해석")
    case "math.DG" => Some("미분기하")
    case "math.DS" => Some("동역학계")
    case "math.FA" => Some("함수해석")
    case "math.GM" => Some("일반수학")
    case "math.GN" => Some("일반위상")
    case "math.GR" => Some("군론")
    case "math.GT" => Some("기하적 위상")
    case "math.HO" => Some("수학사")
    case "math.IT" => Some("정보이론")
    case "math.KT" => Some("K-이론")
    case "math.LO" => Some("논리")
    case "math.MG" => Some("미터기하")
    case "math.MP" => Some("수리물리")
    case "math.NA" => Some("수치해석")
    case "math.NT" => Some("정수론")
    case "math.OA" => Some("작용소대수")
    case "math.OC" => Some("최적화/제어")
    case "math.PR" => Some("확률론")
    case "math.QA" => Some("양자대수")
    case "math.RA" => Some("환론")
    case "math.RT" => Some("표현론")
    case "math.SG" => Some("심플렉틱기하")
    case "math.SP" => Some("스펙트럼이론")
    case "math.ST" => Some("통계이론")
    case "eess.AS" => Some("오디오/음성처리")
    case "eess.IV" => Some("이미지/영상처리")
    case "eess.SP" => Some("신호처리")
    case "eess.SY" => Some("시스템/제어")
    case "physics.comp-ph" => Some("계산물리")
    case "physics.data-an" => Some("데이터분석")
    case "quant-ph" => Some("양자물리")
    case "cond-mat" => Some("응집물질")
    case "hep-th" => Some("고에너지이론")
    case "q-bio.BM" => Some("생체분자")
    case "q-bio.CB" => Some("세포생물")
    case "q-bio.GN" => Some("유전체학")
    case "q-bio.MN" => Some("분자네트워크")
    case "q-bio.NC" => Some("뉴런/인지")
    case "q-bio.OT" => Some("기타생물")
    case "q-bio.PE" => Some("개체군/진화")
    case "q-bio.QM" => Some("정량적방법")
    case "q-bio.SC" => Some("세포하부")
    case "q-bio.TO" => Some("조직/기관")
    case "q-fin.CP" => Some("계산금융")
    case "q-fin.EC" => Some("경제학")
    case "q-fin.GN" => Some("일반금융")
    case "q-fin.MF" => Some("수리금융")
    case "q-fin.PM" => Some("포트폴리오")
    case "q-fin.PR" => Some("가격결정")
    case "q-fin.RM" => Some("리스크관리")
    case "q-fin.ST" => Some("통계금융")
    case "q-fin.TR" => Some("트레이딩")
    case _ => None
  }

  /** `getCategoryName`: the display name of a known id, the id itself
      otherwise. Total, and never empty for a non-empty id. */
  function GetCategoryName(categoryId: string): (name: string)
    ensures categoryId != "" ==> name != ""
  {
    match CategoryNames(categoryId)
    case Some(n) => if n != "" then n else categoryId
    case None => categoryId
  }

  /** A known id gets its table entry, an unknown one comes back unchanged:
      since no listed name is empty, the `|| categoryId` fallback fires
      exactly for ids the table does not list. */
  lemma GetCategoryNameCases(categoryId: string)
    ensures CategoryNames(categoryId).Some? ==> GetCategoryName(categoryId) == CategoryNames(categoryId).value
    ensures CategoryNames(categoryId).None? ==> GetCategoryName(categoryId) == categoryId
  {
  }

  lemma GetCategoryNameExample()
    ensures GetCategoryName("cs.AI") == "인공지능"
    ensures GetCategoryName("cs.XYZ") == "cs.XYZ"
  {
  }

  /** Every category offered in the search form has a display name. */
  lemma ArxivCategoriesAreNamed()
    ensures forall i :: 0 <= i < |ARXIV_CATEGORIES| ==> CategoryNames(ARXIV_CATEGORIES[i].0).Some?
  {
  }

  /** The form's own labels are not always the table's names: `cs.NE` is
      labelled one way in the form and displayed another way on a paper. */
  lemma FormLabelDiffersFromDisplayName()
    ensures ARXIV_CATEGORIES[4].0 == "cs.NE"
    ensures GetCategoryName(ARXIV_CATEGORIES[4].0) != ARXIV_CATEGORIES[4].1
  {
  }

  // ---------------------------------------------------------------------
  // As written: `CATEGORY_NAMES[categoryId] || categoryId` on a plain object

  /** The properties every plain JavaScript object inherits from `Object.prototype`. */
  const OBJECT_PROTOTYPE_MEMBERS: set<string> := {
    "constructor", "hasOwnProperty", "isPrototypeOf", "propertyIsEnumerable",
    "toLocaleString", "toString", "valueOf", "__proto__",
    "__defineGetter__", "__defineSetter__", "__lookupGetter__", "__lookupSetter__"
  }

  /** What a property read on the object can yield: a string, or an inherited
      function or object (named by the property that reached it). */
  datatype JsValue = JsString(s: string) | Inherited(member: string)

  /** `getCategoryName` as written: the property read also sees the members
      the object literal inherits, which are truthy and are returned. */
  function GetCategoryNameAsWritten(categoryId: string): JsValue {
    match CategoryNames(categoryId)
    case Some(n) => if n != "" then JsString(n) else JsString(categoryId)
    case None => if categoryId in OBJECT_PROTOTYPE_MEMBERS then Inherited(categoryId) else JsString(categoryId)
  }

  /** The id `constructor` yields the `Object` function, not a string. */
  lemma PrototypeMemberLeaks()
    ensures !GetCategoryNameAsWritten("constructor").JsString?
  {
  }

  /** Apart from the inherited member names, the code as written and the
      own-property lookup agree. */
  lemma AsWrittenAgreesOffPrototype(categoryId: string)
    requires categoryId !in OBJECT_PROTOTYPE_MEMBERS
    ensures GetCategoryNameAsWritten(categoryId) == JsString(GetCategoryName(categoryId))
  {
  }
}
