/** The combined-scores analytics screen: its filter state, the reset of
    that state, and the colour band a percentage is shown in. */
module CombinedScores {
  import opened JsCore

  // ---------------------------------------------------------------------------
  // Colour bands
  // ---------------------------------------------------------------------------

  datatype Band = Success | Info | Warning | Danger
  {
    /** The CSS class the percentage cell gets. */
    function ClassName(): (c: string)
      ensures |c| > 5 && c[..5] == "text-"
      ensures this == Success <==> c == "text-success"
      ensures this == Info <==> c == "text-info"
      ensures this == Warning <==> c == "text-warning"
      ensures this == Danger <==> c == "text-danger"
    {
      match this
      case Success => "text-success"
      case Info => "text-info"
      case Warning => "text-warning"
      case Danger => "text-danger"
    }

    /** Bands ordered from worst (0) to best (3). */
    function Rank(): (k: nat)
      ensures k <= 3
    {
      match this
      case Danger => 0
      case Warning => 1
      case Info => 2
      case Success => 3
    }
  }

  /** `getScoreColor(percentage)`: the first threshold the percentage reaches. */
  function GetScoreColor(percentage: real): (b: Band)
    ensures b == Success <==> percentage >= 90.0
    ensures b == Info <==> 80.0 <= percentage < 90.0
    ensures b == Warning <==> 70.0 <= percentage < 80.0
    ensures b == Danger <==> percentage < 70.0
  {
    if percentage >= 90.0 then Success
    else if percentage >= 80.0 then Info
    else if percentage >= 70.0 then Warning
    else Danger
  }

  /** A higher percentage never gets a worse band. */
  lemma ScoreColorMonotone(p: real, q: real)
    requires p <= q
    ensures GetScoreColor(p).Rank() <= GetScoreColor(q).Rank()
  {
  }

  // ---------------------------------------------------------------------------
  // Filter state
  // ---------------------------------------------------------------------------

  /** The seven filter keys. */
  const FilterKeys: set<string> :=
    {"company_id", "course_id", "training_id", "test_id", "student_id", "from_date", "to_date"}

  /** Every filter set to `''`. */
  function ClearedFilters(): (f: map<string, string>)
    ensures f.Keys == FilterKeys
    ensures forall k :: k in f ==> f[k] == ""
  {
    map k | k in FilterKeys :: ""
  }

  /** `{...prev, [key]: value}`. */
  function WithFilter(prev: map<string, string>, key: string, value: string): (next: map<string, string>)
    ensures next.Keys == prev.Keys + {key}
    ensures next[key] == value
    ensures forall k :: k in prev && k != key ==> next[k] == prev[k]
  {
    prev[key := value]
  }

  /** Changing one of the seven filters keeps exactly the seven keys. */
  lemma WithFilterKeepsKeys(prev: map<string, string>, key: string, value: string)
    requires prev.Keys == FilterKeys && key in FilterKeys
    ensures WithFilter(prev, key, value).Keys == FilterKeys
  {
  }

  /** The company filter asks for that company's courses when it is set. */
  function CoursesRequest(filters: map<string, string>): (company: Option<string>)
    ensures company.Some? <==> "company_id" in filters && filters["company_id"] != ""
    ensures company.Some? ==> company.value == filters["company_id"]
  {
    if "company_id" in filters && Truthy(Str(filters["company_id"])) then Some(filters["company_id"])
    else None
  }

  /** A row of the combined-scores answer, as far as the screen reads it. */
  datatype ScoreRow = ScoreRow(studentName: string, testName: string, percentageScore: real)

  class ScoresView {
    var filters: map<string, string>
    var companies: seq<string>
    var courses: seq<string>
    var trainings: seq<string>
    var tests: seq<string>
    var scores: seq<ScoreRow>
    var error: Option<string>

    ghost predicate Valid()
      reads this
    {
      filters.Keys == FilterKeys
    }

    constructor ()
      ensures Valid()
      ensures filters == ClearedFilters()
      ensures companies == [] && courses == [] && trainings == [] && tests == []
      ensures scores == [] && error == None
    {
      filters := ClearedFilters();
      companies := [];
      courses := [];
      trainings := [];
      tests := [];
      scores := [];
      error := None;
    }

    /** `handleFilterChange(key, value)`. */
    method FilterChange(key: string, value: string)
      requires Valid() && key in FilterKeys
      modifies this`filters
      ensures Valid()
      ensures filters == WithFilter(old(filters), key, value)
    {
      WithFilterKeepsKeys(filters, key, value);
      filters := filters[key := value];
    }

    /** `handleClearFilters`: every filter back to `''`, the dependent lists
        emptied; the companies and the scores shown stay. */
    method ClearFilters()
      modifies this`filters, this`courses, this`trainings, this`tests
      ensures Valid()
      ensures filters == ClearedFilters()
      ensures courses == [] && trainings == [] && tests == []
    {
      filters := ClearedFilters();
      courses := [];
      trainings := [];
      tests := [];
    }

    /** `fetchData`'s answer: the rows on success, an error message otherwise
        (the rows shown before stay). */
    method ScoresAnswered(ok: bool, rows: seq<ScoreRow>)
      modifies this`scores, this`error
      ensures ok ==> scores == rows && error == None
      ensures !ok ==> scores == old(scores) && error == Some("Failed to fetch scores data")
    {
      error := None;
      if ok {
        scores := rows;
      } else {
        error := Some("Failed to fetch scores data");
      }
    }

    /** The courses fetched for the selected company. */
    method CoursesLoaded(rows: seq<string>)
      modifies this`courses
      ensures courses == rows
    {
      courses := rows;
    }
  }
}
