/** Values shared by every part of the bookmark manager model: optional values,
    the outcome of a request, JavaScript truthiness of request fields, and a few
    facts about sequences. */
module Common {

  datatype Option<+T> = None | Some(value: T)

  /** The outcome of one request handler. Each handler answers with a status code and
      either a row (or a list of rows) or an `{ error: message }` body. */
  datatype Reply<+T> =
    | Ok(value: T)                 // 200
    | Created(value: T)            // 201
    | BadRequest(message: string)  // 400
    | NotFound(message: string)    // 404
    | Conflict(message: string)    // 409
    | Internal(message: string)    // 500, the store's error message

  /** A string field of a request body is truthy when it is present and not empty. */
  predicate TruthyText(s: Option<string>)
  {
    s.Some? && s.value != ""
  }

  /** A numeric id field of a request body is truthy when it is present and not 0. */
  predicate TruthyId(p: Option<int>)
  {
    p.Some? && p.value != 0
  }

  /** `x || null` for a string field. */
  function TextOrNull(s: Option<string>): (r: Option<string>)
    ensures r.Some? <==> TruthyText(s)
    ensures r.Some? ==> r == s
  {
    if TruthyText(s) then s else None
  }

  /** `x || null` for an id field. */
  function IdOrNull(p: Option<int>): (r: Option<int>)
    ensures r.Some? <==> TruthyId(p)
    ensures r.Some? ==> r == p
  {
    if TruthyId(p) then p else None
  }

  /** SQL `COALESCE(?, column)`: a value that was not supplied keeps the column. */
  function Coalesce<T>(supplied: Option<T>, current: T): (r: T)
    ensures supplied.None? ==> r == current
    ensures supplied.Some? ==> r == supplied.value
  {
    if supplied.Some? then supplied.value else current
  }

  /** `COALESCE(?, column)` on a nullable column. */
  function CoalesceOpt<T>(supplied: Option<T>, current: Option<T>): (r: Option<T>)
    ensures supplied.None? ==> r == current
    ensures supplied.Some? ==> r == supplied
  {
    if supplied.Some? then supplied else current
  }

  ghost predicate Distinct<T>(s: seq<T>)
  {
    forall i, j :: 0 <= i < j < |s| ==> s[i] != s[j]
  }

  /** A sequence without repetitions has as many elements as the set of its elements. */
  lemma {:induction false} DistinctCardinality<T>(s: seq<T>)
    requires Distinct(s)
    ensures |set x | x in s| == |s|
  {
    if s != [] {
      DistinctCardinality(s[1..]);
      assert (set x | x in s) == (set x | x in s[1..]) + {s[0]};
      assert forall k :: 0 <= k < |s[1..]| ==> s[1..][k] == s[k + 1];
    }
  }

  /** More positions than keys: some key is hit twice. */
  lemma {:induction false} PigeonHole<T>(s: seq<T>, keys: set<T>)
    requires forall i :: 0 <= i < |s| ==> s[i] in keys
    requires |s| > |keys|
    ensures exists i, j :: 0 <= i < j < |s| && s[i] == s[j]
  {
    if s[0] in s[1..] {
      var k :| 0 <= k < |s[1..]| && s[1..][k] == s[0];
      assert s[0] == s[k + 1];
    } else {
      var rest := keys - {s[0]};
      forall i | 0 <= i < |s[1..]| ensures s[1..][i] in rest {
        assert s[1..][i] == s[i + 1];
      }
      PigeonHole(s[1..], rest);
      var i, j :| 0 <= i < j < |s[1..]| && s[1..][i] == s[1..][j];
      assert s[i + 1] == s[j + 1];
    }
  }
}
