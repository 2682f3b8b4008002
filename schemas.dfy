/** The records exchanged between the services and the HTTP layer (backend/app/api/schemas.py),
    and the loosely typed metadata dictionary stored beside every indexed resume. */
module Schemas {
  import opened Wrappers

  /** A value of the metadata dictionary: a string, a list of strings or a number. */
  datatype Value = Text(text: string) | List(items: seq<string>) | Number(number: real)

  /** A Python `dict` from field name to value. */
  type Metadata = map<string, Value>

  /** `d.get(key, default)` */
  function Get(m: Metadata, key: string, default: Value): (v: Value)
    ensures key in m ==> v == m[key]
    ensures key !in m ==> v == default
  {
    if key in m then m[key] else default
  }

  /** `d.get(key, [])` for a field holding a list of strings. A value of another shape reads as
      the empty list, where Python would iterate a string; that does not arise for the metadata
      the upload handler stores, whose list fields always hold lists. */
  function ListField(m: Metadata, key: string): (r: seq<string>)
    ensures key in m && m[key].List? ==> r == m[key].items
    ensures key !in m ==> r == []
    ensures key in m && !m[key].List? ==> r == []
  {
    if key in m && m[key].List? then m[key].items else []
  }

  /** `d.get(key)` for a field holding a string. */
  function TextField(m: Metadata, key: string): (r: Option<string>)
    ensures key in m && m[key].Text? ==> r == Some(m[key].text)
    ensures key !in m ==> r == None
    ensures key in m && !m[key].Text? ==> r == None
  {
    if key in m && m[key].Text? then Some(m[key].text) else None
  }

  datatype MatchRequest = MatchRequest(jobDescription: string, minScore: real)

  /** A metadata record that carries its file name as a string. */
  predicate Filed(m: Metadata) {
    "filename" in m && m["filename"].Text?
  }

  /** One ranked candidate as the matching service builds it. `filename` is `None` when the
      stored metadata had none; the response schema, which declares `filename: str`, refuses
      such a record. */
  datatype MatchResult = MatchResult(
    filename: Option<string>,
    score: real,
    rawDistance: real,
    matchedSkills: seq<string>,
    missingSkills: seq<string>,
    aiExplanation: string)

  /** A record the response schema accepts. */
  predicate Named(r: MatchResult) {
    r.filename.Some?
  }

  datatype MatchResponse = MatchResponse(matches: seq<MatchResult>)

  /** An `HTTPException`: status code and detail text. */
  datatype HttpError = HttpError(status: int, detail: string)
}
