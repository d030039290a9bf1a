/**
 * The check-evaluation engine: one result record per check, built from the
 * fetched page, the check's scope, its operator and its tasks, and appended to
 * the in-memory result store.
 */
module WebCheck {
  import opened Wrappers
  import opened Seqs
  import opened Strings
  import opened Dom
  import opened Operators
  import opened Links
  import opened Tasks

  /** A configured check. `scope` is `""` when the check has none. */
  datatype Check = Check(
    id: string,
    url: string,
    queryType: string,
    operator: string,
    value: string,
    scope: string,
    tasks: seq<string>)

  /**
   * A check the engine can evaluate: its operator is in the table (any other name
   * raises `KeyError`) and its query type is `plain_text` (any other leaves the
   * match result unset).
   */
  predicate Runnable(c: Check) {
    c.queryType == "plain_text" && OperatorNamed(c.operator).Some?
  }

  /** The outcome of fetching a check's URL: the parsed, lower-cased page, or the exception's message. */
  datatype Fetch = Fetched(page: Document) | FetchFailed(message: string)

  /** What the outside world supplies for one check: the fetch outcome and the clock reading. */
  datatype Observation = Observation(fetched: Fetch, completed: string)

  ghost predicate Observable(o: Observation) {
    o.fetched.Fetched? ==> Valid(o.fetched.page)
  }

  /** A stored result. `check` is `None` only for a loaded record that lacks the key. */
  datatype ResultRecord = ResultRecord(
    check: Option<string>,
    matched: bool,
    error: bool,
    errorMessage: Option<string>,
    completed: string,
    taskResponses: Option<TaskResponses>)

  const ScopeNotFound: string := "Scope not found"

  function ErrorRecord(id: string, message: string, completed: string): ResultRecord {
    ResultRecord(Some(id), false, true, Some(message), completed, None)
  }

  /** The checks a run evaluates: the ones asked for, or all configured ones when none are. */
  function Selected(requested: seq<Check>, configured: seq<Check>): seq<Check> {
    if requested == [] then configured else requested
  }

  /** The element a check looks at: the whole document, or the first match of its scope selector. */
  function ScopeOf(c: Check, d: Document): Option<nat> {
    if c.scope == "" then Some(Root)
    else
      var selected := d.select(Root, c.scope);
      if selected == [] then None else Some(selected[0])
  }

  /** The dedupe pass is applied when the link key holds a non-empty list; the key itself stays. */
  function DedupeLinks(r: TaskResponses): TaskResponses {
    if r.links.Some? && r.links.value != [] then r.(links := Some(Deduped(r.links.value))) else r
  }

  /** The result record for one check. */
  function Evaluate(c: Check, o: Observation, urlparse: string -> UrlParts): ResultRecord
    requires Runnable(c) && Observable(o)
  {
    match o.fetched
    case FetchFailed(message) => ErrorRecord(c.id, message, o.completed)
    case Fetched(d) =>
      match ScopeOf(c, d)
      case None => ErrorRecord(c.id, ScopeNotFound, o.completed)
      case Some(scope) =>
        var matched := Holds(OperatorNamed(c.operator).value, c.value, d, scope);
        var responses := DedupeLinks(ResponsesFor(c.tasks, d, scope, c.value, urlparse, urlparse(c.url)));
        ResultRecord(Some(c.id), matched, false, None, o.completed,
                     if responses.IsEmpty() then None else Some(responses))
  }

  /** The `check` of a record, `""` when it has none. */
  function CheckOf(r: ResultRecord): string {
    r.check.GetOr("")
  }

  /** The records of `records` that belong to check `name`, in order. */
  function RecordsFor(records: seq<ResultRecord>, name: string): seq<ResultRecord> {
    if records == [] then []
    else if CheckOf(records[0]) == name then [records[0]] + RecordsFor(records[1..], name)
    else RecordsFor(records[1..], name)
  }

  /** How many of `records` belong to check `name`. */
  function CountFor(records: seq<ResultRecord>, name: string): nat {
    if records == [] then 0
    else (if CheckOf(records[0]) == name then 1 else 0) + CountFor(records[1..], name)
  }

  class WebCheck {
    var checks: seq<Check>
    var data: seq<ResultRecord>

    /** A monitor over `checks` whose store starts with the records already saved. */
    constructor (checks: seq<Check>, stored: seq<ResultRecord>)
      ensures this.checks == checks && data == stored
    {
      this.checks := checks;
      data := stored;
    }

    /**
     * Evaluates the requested checks (all configured checks when none are
     * requested) in order and appends one record per check to the store.
     */
    method Run(requested: seq<Check>, observations: seq<Observation>, urlparse: string -> UrlParts)
      requires |observations| == |Selected(requested, checks)|
      requires forall i :: 0 <= i < |observations| ==>
        Runnable(Selected(requested, checks)[i]) && Observable(observations[i])
      modifies this`data
      ensures |data| == old(|data|) + |observations|
      ensures data[..old(|data|)] == old(data)
      ensures forall i :: 0 <= i < |observations| ==>
        data[old(|data|) + i] == Evaluate(Selected(requested, checks)[i], observations[i], urlparse)
    {
      var cs := requested;
      if cs == [] {
        cs := checks;
      }
      var results: seq<ResultRecord> := [];
      for i := 0 to |cs|
        invariant data == old(data) && cs == Selected(requested, checks)
        invariant |results| == i
        invariant forall k :: 0 <= k < i ==> results[k] == Evaluate(cs[k], observations[k], urlparse)
      {
        var check, observation := cs[i], observations[i];
        if observation.fetched.FetchFailed? {
          results := results + [ErrorRecord(check.id, observation.fetched.message, observation.completed)];
          continue;
        }
        var d := observation.fetched.page;
        var scope := Root;
        if check.scope != "" {
          var selected := d.select(Root, check.scope);
          if selected == [] {
            results := results + [ErrorRecord(check.id, ScopeNotFound, observation.completed)];
            continue;
          }
          scope := selected[0];
        }
        var op := OperatorNamed(check.operator).value;
        var matched := Holds(op, check.value, d, scope);
        var responses := NoResponses;
        if check.tasks != [] {
          responses := RunTasks(check.tasks, d, scope, check.value, urlparse, urlparse(check.url));
        }
        // The operator is applied a second time after the tasks, to the same scope.
        matched := Holds(op, check.value, d, scope);
        if responses.links.Some? && responses.links.value != [] {
          var deduped := Dedupe(responses.links.value);
          responses := responses.(links := Some(deduped));
        }
        var record := ResultRecord(Some(check.id), matched, false, None, observation.completed,
                                   if responses.IsEmpty() then None else Some(responses));
        results := results + [record];
      }
      data := data + results;
    }

    /** The stored records of check `taskName`, in storage order. */
    function GetMatchesForTask(taskName: string): (r: seq<ResultRecord>)
      reads this
      ensures IsSubsequence(r, data)
      ensures forall x :: x in r <==> x in data && CheckOf(x) == taskName
      ensures |r| == CountFor(data, taskName)
    {
      RecordsForSpec(data, taskName);
      RecordsFor(data, taskName)
    }
  }

  // ---------------------------------------------------------------------------
  // Properties of the records
  // ---------------------------------------------------------------------------

  /** Filtering keeps order, keeps exactly the records of `name`, and all of them. */
  lemma {:induction false} RecordsForSpec(records: seq<ResultRecord>, name: string)
    ensures IsSubsequence(RecordsFor(records, name), records)
    ensures forall x :: x in RecordsFor(records, name) <==> x in records && CheckOf(x) == name
    ensures |RecordsFor(records, name)| == CountFor(records, name)
  {
    if records != [] {
      var rest := records[1..];
      RecordsForSpec(rest, name);
      if CheckOf(records[0]) == name {
        assert [records[0]] + RecordsFor(rest, name) == RecordsFor(records, name);
      }
      assert forall x :: x in records <==> x == records[0] || x in rest;
    }
  }

  /** Every record is shaped as the store expects: an error carries a message, no match and no task responses. */
  predicate WellShaped(r: ResultRecord) {
    && (r.error <==> r.errorMessage.Some?)
    && (r.error ==> !r.matched && r.taskResponses.None?)
  }

  /** The record names its check, carries the clock reading and is well shaped. */
  lemma EvaluateShape(c: Check, o: Observation, urlparse: string -> UrlParts)
    requires Runnable(c) && Observable(o)
    ensures var r := Evaluate(c, o, urlparse);
      r.check == Some(c.id) && r.completed == o.completed && WellShaped(r)
  {
  }

  /** A failed fetch gives an error record with the failure's message, whatever the check asks. */
  lemma FetchFailureRecord(c: Check, o: Observation, urlparse: string -> UrlParts)
    requires Runnable(c) && o.fetched.FetchFailed?
    ensures Evaluate(c, o, urlparse) == ErrorRecord(c.id, o.fetched.message, o.completed)
    ensures !Evaluate(c, o, urlparse).matched && Evaluate(c, o, urlparse).taskResponses.None?
  {
  }

  /** A scope selector that matches nothing gives the error record "Scope not found". */
  lemma ScopeNotFoundRecord(c: Check, o: Observation, urlparse: string -> UrlParts)
    requires Runnable(c) && Observable(o) && o.fetched.Fetched?
    requires c.scope != "" && o.fetched.page.select(Root, c.scope) == []
    ensures Evaluate(c, o, urlparse).error
    ensures Evaluate(c, o, urlparse).errorMessage == Some("Scope not found")
    ensures !Evaluate(c, o, urlparse).matched && Evaluate(c, o, urlparse).taskResponses.None?
  {
  }

  /**
   * A page that was fetched and scoped gives a record without error whose match
   * is the operator applied to the scope; for `contains` that is whether the
   * value occurs in the scope's lower-cased text.
   */
  lemma EvaluatedMatch(c: Check, o: Observation, urlparse: string -> UrlParts)
    requires Runnable(c) && Observable(o) && o.fetched.Fetched?
    requires ScopeOf(c, o.fetched.page).Some?
    ensures var r, d, scope := Evaluate(c, o, urlparse), o.fetched.page, ScopeOf(c, o.fetched.page).value;
      && !r.error && r.errorMessage.None?
      && r.matched == Holds(OperatorNamed(c.operator).value, c.value, d, scope)
      && (c.operator == "contains" ==> (r.matched <==> exists i :: OccursAt(c.value, Lower(d.getText(scope)), i)))
      && (c.operator == "not_contains" ==> (r.matched <==> !exists i :: OccursAt(c.value, Lower(d.getText(scope)), i)))
  {
    var d, scope := o.fetched.page, ScopeOf(c, o.fetched.page).value;
    ContainsMeansOccurs(c.value, d, scope);
  }

  /** Dedupe never adds or removes a key of the mapping, and leaves the texts alone. */
  lemma DedupeKeepsKeys(r: TaskResponses)
    ensures DedupeLinks(r).IsEmpty() == r.IsEmpty()
    ensures DedupeLinks(r).texts == r.texts
    ensures DedupeLinks(r).links.Some? == r.links.Some?
  {
  }

  /**
   * Task responses are attached exactly when some task stored something, even
   * if dedupe then emptied the link list; attached links have distinct hrefs
   * and non-empty texts.
   */
  lemma TaskResponsesAttached(c: Check, o: Observation, urlparse: string -> UrlParts)
    requires Runnable(c) && Observable(o) && o.fetched.Fetched?
    requires ScopeOf(c, o.fetched.page).Some?
    ensures var r, d, scope := Evaluate(c, o, urlparse), o.fetched.page, ScopeOf(c, o.fetched.page).value;
      var responses := ResponsesFor(c.tasks, d, scope, c.value, urlparse, urlparse(c.url));
      && (r.taskResponses.Some? <==> !responses.IsEmpty())
      && (r.taskResponses.Some? && r.taskResponses.value.links.Some? ==>
            DistinctHrefs(r.taskResponses.value.links.value) && NonEmptyTexts(r.taskResponses.value.links.value))
  {
    var d, scope := o.fetched.page, ScopeOf(c, o.fetched.page).value;
    var responses := ResponsesFor(c.tasks, d, scope, c.value, urlparse, urlparse(c.url));
    DedupeKeepsKeys(responses);
    if responses.links.Some? && responses.links.value != [] {
      DedupedProperties(responses.links.value);
    }
  }

  /** A check listing no task, or only unknown ones, gets no task responses. */
  lemma NoKnownTaskNoResponses(c: Check, o: Observation, urlparse: string -> UrlParts)
    requires Runnable(c) && Observable(o)
    requires StoreText !in c.tasks && StoreLink !in c.tasks
    ensures Evaluate(c, o, urlparse).taskResponses.None?
  {
    if o.fetched.Fetched? && ScopeOf(c, o.fetched.page).Some? {
      var d, scope := o.fetched.page, ScopeOf(c, o.fetched.page).value;
      NoOccurrences(c.tasks, StoreText);
      NoOccurrences(c.tasks, StoreLink);
      ResponsesByOccurrences(c.tasks, d, scope, c.value, urlparse, urlparse(c.url));
    }
  }

  lemma {:induction false} NoOccurrences(tasks: seq<string>, task: string)
    requires task !in tasks
    ensures Occurrences(tasks, task) == 0
  {
    if tasks != [] {
      NoOccurrences(tasks[..|tasks| - 1], task);
    }
  }
}
